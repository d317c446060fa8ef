/**
 * The `AddressSearch` component's wiring of the search controller to the history and
 * favorites lists (src/components/AddressSearch.tsx): selecting, toggling a favorite,
 * clearing, and the "no results" panel.
 */
module AddressSearch {
  import opened Types
  import opened Seqs
  import opened JsStrings
  import opened SearchController
  import opened SearchStorage
  import opened SearchControllerFacts
  import R = SearchReducer

  /** The options the component passes, spread over the hook's defaults. */
  const AppConfig := DefaultConfig.(debounceMs := 300, minQueryLength := 3)

  /** What the component holds: the search controller and the two stored lists. */
  datatype App = App(search: Controller, history: Store<HistoryEntry>, favorites: Store<FavoriteEntry>)

  /**
   * `handleSelectAddress(address)`: select, then record the address in the history under the
   * query the component rendered with, which is the query before the selection.
   */
  function HandleSelectAddress(app: App, address: Address, freshId: string, now: int, writeOk: bool): (r: App)
    ensures r.search.st.selectedAddress == Some(address) && r.search.st.query == address.displayLabel
    ensures !r.search.st.showResults && r.search.st.results == [] && r.search.timer == None
    // the live fetch is aborted, and no fetch is issued or forgotten
    ensures r.search.live == app.search.live && r.search.requests.Keys == app.search.requests.Keys
    ensures forall t :: t in r.search.requests ==>
      r.search.requests[t].aborted == (app.search.requests[t].aborted || app.search.live == Some(t))
    // the history records the address under the query from before the selection
    ensures r.history == AddToHistory(app.history, app.search.st.query, address, freshId, now, writeOk)
    ensures |r.history.items| >= 1 && r.history.items[0] == HistoryEntry(freshId, app.search.st.query, address, now)
    ensures forall i :: 1 <= i < |r.history.items| ==> r.history.items[i].address.id != address.id
    ensures r.favorites == app.favorites
  {
    AddressSelectedBehaviour(app.search, address);
    App(Step(app.search, AddressSelected(address)),
        AddToHistory(app.history, app.search.st.query, address, freshId, now, writeOk),
        app.favorites)
  }

  /**
   * `handleToggleFavorite(address)`: a favorite address loses the first favorite found for it,
   * removed by that favorite's entry id; any other address is added without a nickname.
   */
  function HandleToggleFavorite(app: App, address: Address, freshId: string, now: int, writeOk: bool): (r: App)
    ensures !IsFavorite(app.favorites.items, address) ==>
      && IsFavorite(r.favorites.items, address)
      && r.favorites.items == app.favorites.items + [FavoriteEntry(freshId, address, None, now)]
    ensures IsFavorite(app.favorites.items, address) ==>
      exists k: nat :: IsFirst(app.favorites.items, SameAddressAs(address.id), k)
        && r.favorites == RemoveFromFavorites(app.favorites, app.favorites.items[k].id, writeOk)
    ensures r.search == app.search && r.history == app.history
  {
    var f := app.favorites.items;
    if IsFavorite(f, address) then
      match FindFavorite(f, address.id)
      case Some(k) =>
        assert IsFirst(f, SameAddressAs(address.id), k);
        app.(favorites := RemoveFromFavorites(app.favorites, f[k].id, writeOk))
      case None => app
    else
      app.(favorites := AddToFavorites(app.favorites, address, None, freshId, now, writeOk))
  }

  /** `handleClearSearch()`: the controller's `clearSearch`; the lists are untouched. */
  function HandleClearSearch(app: App): (r: App)
    ensures r.search.st == R.Reduce(app.search.st, R.ClearSearch)
    // the live fetch is aborted, and with a positive minimum no search is pending
    ensures r.search.live == app.search.live && r.search.requests.Keys == app.search.requests.Keys
    ensures forall t :: t in r.search.requests ==>
      r.search.requests[t].aborted == (app.search.requests[t].aborted || app.search.live == Some(t))
    ensures app.search.config.minQueryLength > 0 ==> r.search.timer == None
    ensures r.history == app.history && r.favorites == app.favorites
  {
    SearchClearedBehaviour(app.search);
    app.(search := Step(app.search, SearchCleared))
  }

  /** The "no results" panel: results shown but empty, nothing loading, a query of three code units or more. */
  predicate NoResultsShown(st: SearchState)
    // the panel needs two code points at least, and three when the query stays in the Basic Multilingual Plane
    ensures NoResultsShown(st) ==> |st.query| >= 2 && st.results == []
    ensures (forall i :: 0 <= i < |st.query| ==> st.query[i] as int <= 0xFFFF) ==>
      (NoResultsShown(st) <==> st.showResults && st.results == [] && !st.loading && |st.query| >= 3)
  {
    st.showResults && |st.results| == 0 && !st.loading && JsLength(st.query) >= 3
  }

  // ----- favorites toggle -----

  /** With unique entry ids, toggling a favorite deletes exactly the first favorite for the address. */
  lemma ToggleRemovesFirstMatch(app: App, address: Address, freshId: string, now: int, writeOk: bool, k: nat)
    requires UniqueFavoriteIds(app.favorites.items)
    requires IsFirst(app.favorites.items, SameAddressAs(address.id), k)
    ensures var f := app.favorites.items;
      HandleToggleFavorite(app, address, freshId, now, writeOk).favorites.items == f[..k] + f[k + 1..]
  {
    var f := app.favorites.items;
    assert IsFavorite(f, address);
    var r := HandleToggleFavorite(app, address, freshId, now, writeOk);
    var k': nat :| IsFirst(f, SameAddressAs(address.id), k')
      && r.favorites == RemoveFromFavorites(app.favorites, f[k'].id, writeOk);
    FirstIsUnique(f, SameAddressAs(address.id), k, k');
    forall i | 0 <= i < |f| && i != k ensures f[i].id != f[k].id {
      if i < k {
        assert f[i].id != f[k].id;
      } else {
        assert f[k].id != f[i].id;
      }
    }
    RemoveUniqueFavorite(f, k);
  }

  /** With unique entry ids, toggling never adds or removes a favorite for another address. */
  lemma ToggleKeepsOtherAddresses(app: App, address: Address, freshId: string, now: int, writeOk: bool,
                                  e: FavoriteEntry)
    requires UniqueFavoriteIds(app.favorites.items)
    requires e.address.id != address.id
    ensures e in HandleToggleFavorite(app, address, freshId, now, writeOk).favorites.items
        <==> e in app.favorites.items
  {
    var f := app.favorites.items;
    if IsFavorite(f, address) {
      var k := FindFavorite(f, address.id).value;
      assert IsFirst(f, SameAddressAs(address.id), k);
      ToggleRemovesFirstMatch(app, address, freshId, now, writeOk, k);
      DeleteMembers(f, k, e);
    }
  }

  /** With one favorite per address, toggling a favorite address leaves it no longer a favorite. */
  lemma ToggleOffUnfavorites(app: App, address: Address, freshId: string, now: int, writeOk: bool)
    requires UniqueFavoriteIds(app.favorites.items) && OneFavoritePerAddress(app.favorites.items)
    requires IsFavorite(app.favorites.items, address)
    ensures !IsFavorite(HandleToggleFavorite(app, address, freshId, now, writeOk).favorites.items, address)
  {
    var f := app.favorites.items;
    var k := FindFavorite(f, address.id).value;
    assert IsFirst(f, SameAddressAs(address.id), k);
    ToggleRemovesFirstMatch(app, address, freshId, now, writeOk, k);
    forall i | 0 <= i < |f| && i != k ensures !SameAddressAs(address.id)(f[i]) {
      if i < k {
        assert f[i].address.id != f[k].address.id;
      } else {
        assert f[k].address.id != f[i].address.id;
      }
    }
    DeleteLeavesNone(f, k, SameAddressAs(address.id));
  }

  /** Toggling a non-favorite twice, with a fresh entry id, restores the favorites list. */
  lemma ToggleTwiceRestores(app: App, address: Address, freshId: string, id2: string, t1: int, t2: int,
                            ok1: bool, ok2: bool)
    requires !IsFavorite(app.favorites.items, address)
    requires UniqueFavoriteIds(app.favorites.items)
    requires forall i :: 0 <= i < |app.favorites.items| ==> app.favorites.items[i].id != freshId
    ensures HandleToggleFavorite(HandleToggleFavorite(app, address, freshId, t1, ok1), address, id2, t2, ok2)
      .favorites.items == app.favorites.items
  {
    var f := app.favorites.items;
    var once := HandleToggleFavorite(app, address, freshId, t1, ok1);
    var g := once.favorites.items;
    assert g == f + [FavoriteEntry(freshId, address, None, t1)];
    assert UniqueFavoriteIds(g);
    assert IsFirst(g, SameAddressAs(address.id), |f|);
    ToggleRemovesFirstMatch(once, address, id2, t2, ok2, |f|);
    assert g[..|f|] == f;
  }

  // ----- selection, clearing and the "no results" panel -----

  /** Right after a selection or a clear, the "no results" panel is hidden. */
  lemma PanelHiddenAfterSelectOrClear(app: App, address: Address, freshId: string, now: int, writeOk: bool)
    ensures !NoResultsShown(HandleSelectAddress(app, address, freshId, now, writeOk).search.st)
    ensures !NoResultsShown(HandleClearSearch(app).search.st)
  {
  }

  /** The live fetch of a query of three code units or more answering with no features shows the panel. */
  lemma EmptyAnswerShowsPanel(c: Controller, t: nat, features: Option<seq<Address>>)
    requires Inv(c)
    requires c.live == Some(t) && t in c.requests && !c.requests[t].aborted
    requires features == None || features == Some([])
    requires JsLength(c.st.query) >= 3
    ensures NoResultsShown(Step(c, RequestSettled(t, Response(features))).st)
  {
  }

  /** Typing into a box with no selection: what the debounce scenario needs to know of one keystroke. */
  lemma TypeInto(c: Controller, q: string)
    requires c.st.selectedAddress == None && q != c.st.query
    ensures var r := Step(c, QueryChanged(q));
      && r.st.query == q && r.st.selectedAddress == None && r.st.autocomplete == c.st.autocomplete
      && r.st.limit == c.st.limit && r.config == c.config
      && r.requests == c.requests && r.live == c.live && r.nextToken == c.nextToken
      && (JsLength(q) < c.config.minQueryLength ==> r.timer == None)
      && (c.st.autocomplete && JsLength(q) >= c.config.minQueryLength ==> r.timer == Some(Timer(q, c.st.limit)))
  {
    QueryChangedBehaviour(c, q);
    RerenderRunsAtMostTwice(DepsOf(c), SetQuery(c, q));
  }

  /**
   * Typing "P", "Pa", "Par" into an empty box with autocomplete and a minimum of three issues
   * no request and leaves one pending search, for "Par"; when its timer fires exactly one
   * request is in flight, for "Par". A freshly mounted controller is such a box.
   */
  lemma TypingDebounces(c: Controller)
    requires c.config.minQueryLength == 3 && c.st.autocomplete
    requires c.st.query == "" && c.st.selectedAddress == None
    requires c.requests == map[] && c.live == None
    ensures var c3 := Step(Step(Step(c, QueryChanged("P")), QueryChanged("Pa")), QueryChanged("Par"));
      && c3.requests == map[] && c3.timer == Some(Timer("Par", c.st.limit))
      && var c4 := Step(c3, TimerFired);
         c4.requests == map[c.nextToken := Request("Par", c.st.limit, false)]
         && c4.live == Some(c.nextToken) && c4.st.loading
  {
    assert JsLength("P") == 1 && JsLength("Pa") == 2 && JsLength("Par") == 3;
    TypeInto(c, "P");
    var c1 := Step(c, QueryChanged("P"));
    TypeInto(c1, "Pa");
    var c2 := Step(c1, QueryChanged("Pa"));
    TypeInto(c2, "Par");
    var c3 := Step(c2, QueryChanged("Par"));
    TimerFiredBehaviour(c3);
    assert NotSpace("Par"[0]);
    assert !TooShortToSearch(c3.config, "Par");
  }

  /** A freshly mounted component meets the conditions of `TypingDebounces`. */
  lemma MountedIsEmptyBox()
    ensures var c := Init(AppConfig);
      && c.config.minQueryLength == 3 && c.st.autocomplete && c.st.query == "" && c.st.selectedAddress == None
      && c.requests == map[] && c.live == None && c.st.limit == 10 && c.nextToken == 0
  {
    InitWellFormed(AppConfig);
  }
}
