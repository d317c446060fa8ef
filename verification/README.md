# Address search: a verified model of its core

The application is a React front end that searches French postal addresses through a
remote geocoding service. A user types into a search box and picks a result. The picked
address is recorded in a history list and can be starred as a favorite. A small city
validator normalises, checks and suggests city names.

This project models the logic behind that, as pure Dafny functions over immutable data:

- **SearchReducer** is the hook's reducer and initial state.
- **SearchController** is the `useAddressSearch` hook as an event machine. Its events are:
  - typing;
  - a direct search call;
  - the debounce timer firing;
  - a fetch settling;
  - selecting;
  - clearing;
  - changing the limit or the autocomplete flag.

  After each event, React re-renders and the auto-search effect re-runs when one of its
  dependencies changed. Each issued fetch is named by a token. Aborting marks the token's
  request as aborted.
- **SearchControllerFacts** holds the properties across events:
  - an invariant of the in-flight table, preserved by every event;
  - at most one unaborted fetch;
  - superseded fetches write nothing but `loading := false`;
  - the behaviour of each callback once the effect has reacted;
  - the effect re-runs at most twice per render.
- **SearchStorage** is the history and favorites lists. Each list is held in memory beside
  the snapshot it last wrote to storage. A failing write leaves the snapshot unchanged.
- **CityValidator** covers normalisation, the three matching passes of `isCitySupported`,
  `getSimilarCities` and `getCityCoordinates`.
- **AddressSearch** is the component's handlers and its "no results" panel.
- **JsStrings** and **Seqs** give the JavaScript string and array operations the code relies
  on. They follow ECMAScript semantics:
  - `length` counts UTF-16 code units;
  - `trim` and `\s` use the WhiteSpace and LineTerminator set;
  - `substring` clamps its bounds and swaps them when reversed;
  - `slice` accepts a negative end.

Where the code differs from the behaviour documented for the application, the model follows the code:

- The short-query guard of `searchAddresses` checks `trim()` only for emptiness. It compares
  the untrimmed length with the minimum, not the trimmed length.
- The guard does not abort a fetch already in flight. Its late answer can still fill the list;
  lemma `SearchControllerFacts.ShortQueryKeepsLiveFetch` states this.
- The auto-search effect clears results and selection for a short query whether or not
  autocomplete is on.
- A superseded fetch's `finally` clause still turns `loading` off while a newer fetch is in
  flight; lemma `SearchControllerFacts.StaleFetchClearsLoading` states this.
- `getSimilarCities` keeps table order only for real matches. Its fallback
  `["paris", "lyon", "marseille"]` is not in table order.

## Model

| member | source | states |
|---|---|---|
| SearchReducer.Reduce | src/hooks/useAddressSearch.ts:30-62 | Each `SET_*` action stores its payload in its own field. No field outside the action's write set changes. `CLEAR_SEARCH` empties query, results, panel, selection and error, and keeps loading, limit and autocomplete. `RESET_ERROR` empties the error. An unknown action returns the state unchanged. |
| SearchControllerFacts.InitWellFormed | src/hooks/useAddressSearch.ts:18-27 | The mounted controller starts from the initial state, with no fetch and no live token, and is well formed. No timer is pending when the minimum query length is positive. |
| SearchController.AbortLive | src/hooks/useAddressSearch.ts:96-98 | Only the last issued fetch is marked aborted, and only if it is still in flight. Nothing else changes. |
| SearchController.SearchAddresses | src/hooks/useAddressSearch.ts:86-104 | A blank query, or one whose untrimmed length is below the minimum, empties and hides the results. It issues and aborts nothing. Otherwise the previous live fetch is aborted and a fresh token becomes live. Loading turns on and the error is emptied. Every other in-flight fetch is then aborted. |
| SearchController.CompleteRequest | src/hooks/useAddressSearch.ts:130-142 | Settling removes the fetch from flight and always ends with loading off. An aborted fetch writes nothing else. A response sets the results to its features, or to `[]` when absent, and shows them. A failure sets the fixed message and keeps the results. |
| SearchController.DebouncedSearch | src/hooks/useAddressSearch.ts:148-158 | The pending callback, if any, is replaced by one for the given query with the current limit. Nothing else changes. |
| SearchController.FireTimer | src/hooks/useAddressSearch.ts:153-155 | Afterwards no timer is pending. With none pending, nothing happens. A captured query the guard rejects empties and hides the list and issues and aborts nothing. Any other captured query aborts the live fetch and becomes the live fetch under the next token, with the captured limit, loading on and the error emptied. |
| SearchController.Handle | src/hooks/useAddressSearch.ts:81-244 | Dispatching an event to its callback never changes the configuration. Only a direct or debounced search issues a fetch; it takes the next token and becomes live. Every other event keeps the live token and never adds to the in-flight table. |
| SearchController.Step | src/hooks/useAddressSearch.ts:161-192 | An event followed by its re-render keeps the configuration. New fetches come only from a search, under the next token, and every other event keeps the live token and never adds to the in-flight table. |
| SearchController.Init | src/hooks/useAddressSearch.ts:73-78 | Mounting gives the initial state, the given configuration, no fetch, no live token and token 0, and meets the in-flight invariant. A positive minimum leaves no timer; otherwise the first effect run arms one for the empty query. |
| SearchController.AutoSearchEffect | src/hooks/useAddressSearch.ts:161-185 | Every run first cancels the pending timer. A settled selection then suppresses everything. Autocomplete with a long enough query re-arms the timer. A short query empties and hides the results and drops the selection. Manual mode with a long query does nothing. No fetch is issued or aborted. |
| SearchController.Rerender | src/hooks/useAddressSearch.ts:186-192 | Re-rendering can only empty or hide the results, drop the selection, and re-arm or cancel the timer. In-flight fetches, query, loading, error and options are kept. |
| SearchController.SetQuery | src/hooks/useAddressSearch.ts:222-235 | The query becomes the text. A selection is dropped exactly when one exists and the text differs from its label. Nothing else changes. |
| SearchController.SelectAddress | src/hooks/useAddressSearch.ts:195-208 | The selection is set and the query becomes its label. The panel is hidden and the results are emptied. The live fetch is aborted and the timer cancelled. |
| SearchController.ClearSearch | src/hooks/useAddressSearch.ts:211-219 | The state is `CLEAR_SEARCH` applied to it. The timer is cancelled and the live fetch aborted. |
| SearchControllerFacts.RerenderRunsAtMostTwice | src/hooks/useAddressSearch.ts:161-192 | After an event the effect runs at most twice. A second run happens only when the first one dropped a selection. |
| SearchControllerFacts.SearchIssueKeepsInv | src/hooks/useAddressSearch.ts:95-104 | Issuing a search keeps the in-flight invariant: tokens are fresh and only the live fetch can be unaborted. |
| SearchControllerFacts.StepKeepsWellFormed | src/hooks/useAddressSearch.ts:95-104 | Every event, with its re-render, keeps the in-flight invariant. It also keeps a selection only while the query reads as its label. |
| SearchControllerFacts.SingleFlight | src/hooks/useAddressSearch.ts:95-101 | In a well-formed controller, at most one in-flight fetch is unaborted, and it is the live one. |
| SearchControllerFacts.SupersededFetchWritesNothing | src/hooks/useAddressSearch.ts:132-142 | A fetch that is no longer live writes only `loading := false` when it settles, however it settles. |
| SearchControllerFacts.StaleFetchClearsLoading | src/hooks/useAddressSearch.ts:140-142 | A superseded fetch settling turns loading off while the newer live fetch is still in flight and unaborted. |
| SearchControllerFacts.OnlyLiveFetchWritesResults | src/hooks/useAddressSearch.ts:130-142 | Only a settling live, unaborted fetch sets non-empty results, the error message, or shows the panel. Every other event keeps, empties or hides them. |
| SearchControllerFacts.QueryChangedBehaviour | src/hooks/useAddressSearch.ts:222-235 | Typing the current query changes nothing. Typing anything else drops the selection and never touches fetches. It arms the timer for a long query with autocomplete. A short query cancels the timer and empties and hides the list. In manual mode it only cancels the timer. |
| SearchControllerFacts.ShortQueryKeepsLiveFetch | src/hooks/useAddressSearch.ts:86-93 | Typing a too-short query leaves the live fetch unaborted. Its late response still fills and shows the list under the short query. |
| SearchControllerFacts.AddressSelectedBehaviour | src/hooks/useAddressSearch.ts:195-208 | After selecting and re-rendering, the state is the selection's. No timer is pending. Exactly the live fetch is additionally aborted. |
| SearchControllerFacts.SearchClearedBehaviour | src/hooks/useAddressSearch.ts:161-219 | After clearing and re-rendering, the state is `CLEAR_SEARCH` of the old one. Exactly the live fetch is additionally aborted. A timer, for the empty query with the current limit, is pending exactly when the minimum is zero or less, autocomplete is on, and clearing changed the query or dropped a selection. Otherwise, and always for a positive minimum, none is. |
| SearchControllerFacts.TimerFiredBehaviour | src/hooks/useAddressSearch.ts:153-155 | A firing timer runs `searchAddresses` on what it captured, and no effect follows. With no timer it is a no-op. |
| SearchControllerFacts.RequestSettledBehaviour | src/hooks/useAddressSearch.ts:130-142 | A fetch settling changes no dependency of the effect, so only the completion applies. |
| SearchControllerFacts.OptionChangeBehaviour | src/hooks/useAddressSearch.ts:238-244 | Changing the limit or the autocomplete flag never touches fetches, query or selection. If it changes a dependency, an unsettled long query with autocomplete is re-armed with the current limit. An unsettled short query cancels the timer and empties and hides the list. A settled selection or manual mode only cancels the timer. |
| Seqs.Filter | src/hooks/useSearchStorage.ts:34-36 | `filter` never lengthens the list, and everything it keeps passes the test. |
| Seqs.FilterMembers | src/hooks/useSearchStorage.ts:34-36 | A value survives `filter` exactly when it was in the list and passes the test. |
| Seqs.FilterCounts | src/hooks/useSearchStorage.ts:34-36 | `filter` keeps every copy of a passing value and no copy of a failing one. |
| Seqs.SliceTo | src/hooks/useSearchStorage.ts:39 | `slice(0, end)` is a prefix. For a non-negative end its length is `min(end, length)`; a negative end counts back from the length, down to an empty result. |
| SearchStorage.AddToHistory | src/hooks/useSearchStorage.ts:24-50 | The new entry is first. No other entry shares its address id, and the length is `min(10, 1 + kept)`. The kept entries are the first ones for other addresses, in their old order. The snapshot follows a successful write. |
| SearchStorage.RemoveFromHistory | src/hooks/useSearchStorage.ts:53-65 | Exactly the entries with that entry id are removed. Every copy of every other entry stays, and order is kept. The snapshot follows a successful write. |
| SearchStorage.RemoveAbsentIdKeepsList | src/hooks/useSearchStorage.ts:53-144 | Removing an entry id that no history entry or favorite has leaves that list unchanged in memory. |
| SearchStorage.ClearHistory | src/hooks/useSearchStorage.ts:68-75 | The list empties. The key is removed unless the removal throws. |
| SearchStorage.AddToHistoryKeepsInvariants | src/hooks/useSearchStorage.ts:34-39 | With a fresh entry id, the history keeps one entry per address and unique entry ids. |
| SearchStorage.AddToHistoryTwice | src/hooks/useSearchStorage.ts:34-39 | Recording the same address twice leaves one entry for it, first, carrying the later query and time. |
| SearchStorage.AddToFullHistoryDropsOldest | src/hooks/useSearchStorage.ts:34-39 | On a full history without the address, the new entry pushes out exactly the oldest one. |
| SearchStorage.WriteFailureKeepsMemory | src/hooks/useSearchStorage.ts:41-48 | A failing storage write never changes the in-memory list of any history or favorites operation. |
| SearchStorage.HasAddress | src/hooks/useSearchStorage.ts:111-113 | The `some` scan holds iff some favorite has the address id. |
| SearchStorage.IsFavorite | src/hooks/useSearchStorage.ts:147-154 | An address is a favorite iff some favorite has its address id. |
| SearchStorage.AddToFavorites | src/hooks/useSearchStorage.ts:101-129 | An existing favorite for the address wins, and the store is returned unchanged. Otherwise the new favorite is appended, the length grows by one, and the snapshot follows a successful write. Either way the address is a favorite afterwards. |
| SearchStorage.AddToFavoritesKeepsInvariants | src/hooks/useSearchStorage.ts:109-119 | With a fresh entry id, favorites keep one entry per address and unique entry ids. |
| SearchStorage.RemoveFromFavorites | src/hooks/useSearchStorage.ts:132-144 | Exactly the favorites with that entry id are removed. Every copy of every other favorite stays, and order is kept. The snapshot follows a successful write. |
| SearchStorage.RemoveUniqueFavorite | src/hooks/useSearchStorage.ts:134 | When no other favorite shares the entry id of the favorite at some position, filtering out that id deletes exactly that favorite and keeps the rest in order. |
| SearchStorage.Rename | src/hooks/useSearchStorage.ts:159-161 | The `map` keeps the length and every entry's id, address and time. Only matching entries get the nickname. |
| SearchStorage.UpdateFavoriteNickname | src/hooks/useSearchStorage.ts:157-171 | Only the nicknames of favorites with that entry id change. Length, order and other fields are kept, and the snapshot follows a successful write. |
| SearchStorage.FindFavorite | src/components/AddressSearch.tsx:80-82 | `find` gives the first favorite with the address id, or nothing exactly when there is none. |
| JsStrings.JsLength | src/hooks/useAddressSearch.ts:88 | `length` counts between one and two units per code point, and exactly one in the Basic Multilingual Plane. |
| JsStrings.JsLengthAppend | src/hooks/useAddressSearch.ts:88 | `length` adds up over concatenation. |
| JsStrings.JsLengthOfChar | src/hooks/useAddressSearch.ts:88 | One code point is one unit, or two (a surrogate pair) above U+FFFF; with `JsLengthAppend` this fixes the length of every string. |
| JsStrings.Trim | src/hooks/useAddressSearch.ts:87 | `trim` leaves no white space at either end. It yields the empty string exactly for all-white-space input, and what remains is the input between its first and last non-white-space character. |
| JsStrings.IncludesIff | src/utils/cityValidator.ts:73-74 | `includes` holds exactly when the needle occurs at some offset. |
| JsStrings.Substring | src/utils/cityValidator.ts:106-107 | `substring(0, end)` is the prefix of length `end` clamped to the string. |
| JsStrings.LowerChar | src/utils/cityValidator.ts:36 | A to Z and the Latin-1 capitals (× excepted) become their small letters, and every other code point is kept (a restriction, see below). The result is never such a capital, and it is ASCII exactly when the input is. |
| JsStrings.ToLowerCase | src/utils/cityValidator.ts:36 | `toLowerCase` keeps the length, lowers each capital in place, keeps every other code point, and leaves no capital. |
| JsStrings.LowerCaseIdempotent | src/utils/cityValidator.ts:36 | Lower-casing twice is lower-casing once. |
| JsStrings.RemoveSpaces | src/utils/cityValidator.ts:58 | Removing `\s` leaves no white space and keeps every other code point, as often as it occurs and in its order. |
| CityValidator.BaseLetter | src/utils/cityValidator.ts:34 | Decomposition keeps ASCII as is and never yields a combining mark from a base character. |
| CityValidator.StripAccents | src/utils/cityValidator.ts:34-35 | After decomposition and mark removal no combining mark remains. ASCII input is unchanged, and the string never grows. |
| CityValidator.NormalizeCity | src/utils/cityValidator.ts:32-38 | The normal form has no white space at either end. |
| CityValidator.NormalFormIsLower | src/utils/cityValidator.ts:32-38 | The normal form contains no capital that `toLowerCase` lowers: no A to Z and no Latin-1 capital. |
| CityValidator.NormalizeAscii | src/utils/cityValidator.ts:32-38 | On ASCII input, the normal form is the lower-cased, trimmed input. |
| CityValidator.LowerAscii | src/utils/cityValidator.ts:36 | On ASCII input, `toLowerCase` lowers exactly A to Z. |
| CityValidator.BlankNormalizesToEmpty | src/utils/cityValidator.ts:32-38 | All-white-space input normalises to the empty string. |
| CityValidator.AnySpacelessMatch | src/utils/cityValidator.ts:58-67 | The second pass succeeds iff some supported name equals the input once white space is removed from both. |
| CityValidator.AnyPartialMatch | src/utils/cityValidator.ts:70-81 | The third pass succeeds iff the input contains some supported name or is contained in one. |
| CityValidator.IsCitySupported | src/utils/cityValidator.ts:43-89 | `isCitySupported` rejects the empty string, and accepts a non-empty input whose normal form is listed. `IsCitySupportedIff` gives the whole condition. |
| CityValidator.MatchesSomeCityIff | src/utils/cityValidator.ts:52-81 | The three passes together accept exactly the names that some listed name accepts, exactly, ignoring white space, or partially. |
| CityValidator.IsCitySupportedIff | src/utils/cityValidator.ts:43-89 | A city is supported iff it is non-empty and its normal form is accepted by some supported name. |
| CityValidator.SupportedBasics | src/utils/cityValidator.ts:44-55 | The empty string is rejected, and a non-empty input whose normal form is listed is accepted. |
| CityValidator.BlankCityIsSupported | src/utils/cityValidator.ts:70-81 | A non-empty all-white-space input is accepted, because its empty normal form is contained in every name. |
| CityValidator.SupportedCitiesDistinct | src/utils/cityValidator.ts:6-27 | The supported list names each city once. |
| CityValidator.Resembling | src/utils/cityValidator.ts:103-113 | The names resembling the input by the two-letter test keep table order. |
| CityValidator.CollectMatching | src/utils/cityValidator.ts:103-113 | With a positive bound, the loop yields the first `min(bound, matches)` names that pass the test. With no positive bound it stops after looking at the first name. The result is always a prefix of the passing names. |
| CityValidator.GetSimilarCities | src/utils/cityValidator.ts:94-121 | An empty input gives `[]`. Otherwise the result is the first `maxSuggestions` resembling names, or a slice of the fallback when none resembles. The names are always distinct and supported, and never more than a positive bound. They are in table order unless the fallback is returned. |
| CityValidator.FallbackIsSupported | src/utils/cityValidator.ts:116-118 | Every slice of the fallback names distinct supported cities. |
| Seqs.FindFirst | src/utils/cityValidator.ts:151-154 | `find` gives the first position that passes, or nothing exactly when none passes. |
| CityValidator.LookUp | src/utils/cityValidator.ts:151-157 | The coordinates are those of the first record that passes. Nothing is returned exactly when no record passes. |
| CityValidator.GetCityCoordinates | src/utils/cityValidator.ts:147-160 | Coordinates that are found belong to a record whose normal form is the input's. `GetCityCoordinatesIff` states when they are found. |
| CityValidator.GetCityCoordinatesIff | src/utils/cityValidator.ts:147-160 | Coordinates are found exactly when some record shares the input's normal form. |
| AddressSearch.HandleSelectAddress | src/components/AddressSearch.tsx:58-62 | Selecting settles the search on the address with the panel hidden and no timer. Exactly the live fetch is additionally aborted, and none is issued or forgotten. The history becomes `addToHistory` of the query as it stood before the selection: a first entry for the address, the cap of ten, the kept order and the snapshot. Favorites are untouched. |
| AddressSearch.HandleToggleFavorite | src/components/AddressSearch.tsx:78-89 | A non-favorite is appended with no nickname and becomes a favorite. A favorite loses the entries with the entry id of its first favorite. The search and history are untouched. |
| AddressSearch.ToggleRemovesFirstMatch | src/components/AddressSearch.tsx:79-85 | With unique entry ids, toggling a favorite deletes exactly the first favorite for the address. |
| AddressSearch.ToggleKeepsOtherAddresses | src/components/AddressSearch.tsx:79-85 | With unique entry ids, toggling never adds or removes a favorite for another address. |
| AddressSearch.ToggleOffUnfavorites | src/components/AddressSearch.tsx:79-85 | With one favorite per address, toggling a favorite leaves the address no longer a favorite. |
| AddressSearch.ToggleTwiceRestores | src/components/AddressSearch.tsx:78-89 | Toggling a non-favorite twice, with a fresh entry id, restores the favorites list. |
| AddressSearch.HandleClearSearch | src/components/AddressSearch.tsx:92-95 | Clearing applies `CLEAR_SEARCH` to the search state. Exactly the live fetch is additionally aborted, and with a positive minimum no timer is pending. Both lists are untouched. |
| AddressSearch.NoResultsShown | src/components/AddressSearch.tsx:189 | The panel needs an empty result list and two code points of query at least. For text in the Basic Multilingual Plane it shows exactly when results are shown but empty, nothing loads, and the query has three characters or more. |
| AddressSearch.PanelHiddenAfterSelectOrClear | src/components/AddressSearch.tsx:189 | The "no results" panel is hidden right after a selection or a clear. |
| AddressSearch.EmptyAnswerShowsPanel | src/components/AddressSearch.tsx:189 | When the live fetch for a query of three or more code units answers with no features, the panel is shown. |
| AddressSearch.TypeInto | src/hooks/useAddressSearch.ts:222-235 | A keystroke into a box with no selection sets the query and keeps fetches and options. A short text leaves no timer, and a long one with autocomplete arms the timer for it. |
| AddressSearch.TypingDebounces | src/components/AddressSearch.tsx:39-43 | In an empty box with autocomplete and a minimum of 3, typing "P", "Pa", "Par" issues no request and leaves one timer for "Par". When it fires, exactly one request, for "Par", is in flight and live. |
| AddressSearch.MountedIsEmptyBox | src/components/AddressSearch.tsx:39-43 | The component's hook, as configured, mounts with autocomplete, a minimum of 3, an empty query, no selection and no fetch, so the typing scenario applies to it. |

## Left out

- Network: `fetch`, the URL and query string, the HTTP status check and `response.json()`. A fetch's outcome is an input event.
- Storage I/O: reading and `JSON.parse` of stored lists at mount. Each list starts from whatever the caller supplies, and a write is a snapshot that may fail.
- Time: real timers and the 300 ms duration. The debounce is ordering only: arm, replace, cancel, fire.
- Entry ids and time: ids built from `Date.now()` and `Math.random()`, and timestamps. Both are parameters; fresh ids are a precondition only where a lemma needs them.
- Address identity: the effect compares `selectedAddress` by reference. The model compares it by value.
- Unmount: the cleanup effect that aborts and cancels when the hook unmounts.
- Logging: `console.log`, `console.warn` and `console.error`.
- Other parts of the application: geolocation, `handleGeolocation` and the `enableGeolocation`, `enableHistory` and `enableFavorites` flags. Notifications, routing, the map, cards, statistics and all presentation.
- Address fields: only the label, id, score and coordinates of an address are kept.
- CityValidator.StripAccents: decomposition is modelled only for the precomposed letters of Latin-1. Other code points keep their form.
- JsStrings.LowerChar: maps only Basic Latin and Latin-1 capitals. Every other code point is kept, although JavaScript lowers many more (Ā to ā, Σ to σ). Full Unicode case mapping is not modelled.
- JsStrings.ToLowerCase: lower-cases only Basic Latin and Latin-1 capitals, through `LowerChar`.
- JsStrings.Substring: `substring` and `includes` work on code points, not UTF-16 units. The two agree for text in the Basic Multilingual Plane.
- CityValidator.GetSimilarCities: the default of 3 for `maxSuggestions` is not modelled. The bound is always an argument; passing 3 gives the default behaviour.
- Number types: `maxSuggestions`, `limit` and the coordinates are integers and reals, not IEEE doubles. Fractional or NaN limits are not modelled.
