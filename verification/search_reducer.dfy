/**
 * The pure state-transition function of the search controller
 * (`searchReducer` and `initialState` in src/hooks/useAddressSearch.ts).
 */
module SearchReducer {
  import opened Types

  /** The actions the controller dispatches; `Unrecognized` stands for any other `type` tag. */
  datatype Action =
    | SetQuery(query: string)
    | SetLoading(loading: bool)
    | SetResults(results: seq<Address>)
    | SetError(error: string)
    | SetShowResults(showResults: bool)
    | SetSelectedAddress(selectedAddress: Option<Address>)
    | SetLimit(limit: int)
    | SetAutocomplete(autocomplete: bool)
    | ClearSearch
    | ResetError
    | Unrecognized

  /** The fields of a `SearchState`, to say which of them an action may write. */
  datatype Field = Query | Results | Loading | Error | ShowResults | Selected | Limit | Autocomplete

  /** `s` and `t` hold the same value in field `f`. */
  predicate SameField(f: Field, s: SearchState, t: SearchState) {
    match f
    case Query => s.query == t.query
    case Results => s.results == t.results
    case Loading => s.loading == t.loading
    case Error => s.error == t.error
    case ShowResults => s.showResults == t.showResults
    case Selected => s.selectedAddress == t.selectedAddress
    case Limit => s.limit == t.limit
    case Autocomplete => s.autocomplete == t.autocomplete
  }

  /** The fields each action is allowed to write: a `SET_*` action its own field, `CLEAR_SEARCH` five. */
  function Writes(a: Action): set<Field> {
    match a
    case SetQuery(_) => {Query}
    case SetLoading(_) => {Loading}
    case SetResults(_) => {Results}
    case SetError(_) => {Error}
    case SetShowResults(_) => {ShowResults}
    case SetSelectedAddress(_) => {Selected}
    case SetLimit(_) => {Limit}
    case SetAutocomplete(_) => {Autocomplete}
    case ClearSearch => {Query, Results, ShowResults, Selected, Error}
    case ResetError => {Error}
    case Unrecognized => {}
  }

  const InitialState := SearchState("", [], false, "", false, None, 10, true)

  /** `searchReducer`: total over every state and action. */
  function Reduce(s: SearchState, a: Action): (r: SearchState)
    // nothing outside the action's fields changes
    ensures forall f :: f !in Writes(a) ==> SameField(f, s, r)
    // each SET_* action stores its payload
    ensures a.SetQuery? ==> r.query == a.query
    ensures a.SetLoading? ==> r.loading == a.loading
    ensures a.SetResults? ==> r.results == a.results
    ensures a.SetError? ==> r.error == a.error
    ensures a.SetShowResults? ==> r.showResults == a.showResults
    ensures a.SetSelectedAddress? ==> r.selectedAddress == a.selectedAddress
    ensures a.SetLimit? ==> r.limit == a.limit
    ensures a.SetAutocomplete? ==> r.autocomplete == a.autocomplete
    // CLEAR_SEARCH empties the search fields, keeping loading, limit and autocomplete
    ensures a.ClearSearch? ==>
      r.query == "" && r.results == [] && !r.showResults && r.selectedAddress == None && r.error == ""
    ensures a.ResetError? ==> r.error == ""
    ensures a.Unrecognized? ==> r == s
  {
    match a
    case SetQuery(q) => s.(query := q)
    case SetLoading(b) => s.(loading := b)
    case SetResults(rs) => s.(results := rs)
    case SetError(e) => s.(error := e)
    case SetShowResults(b) => s.(showResults := b)
    case SetSelectedAddress(sel) => s.(selectedAddress := sel)
    case SetLimit(n) => s.(limit := n)
    case SetAutocomplete(b) => s.(autocomplete := b)
    case ClearSearch =>
      s.(query := "", results := [], showResults := false, selectedAddress := None, error := "")
    case ResetError => s.(error := "")
    case Unrecognized => s
  }
}
