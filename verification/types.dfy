/** The records the address-search front-end passes around (src/types/address.ts). */
module Types {

  /** A value that may be absent: `null` / `undefined` in the source. */
  datatype Option<+T> = None | Some(value: T) {
    function GetOr(default: T): T {
      match this
      case Some(v) => v
      case None => default
    }
  }

  /** A point geometry, longitude first. Coordinates are carried, never computed on. */
  datatype Point = Point(lon: real, lat: real)

  /**
   * A geocoder feature, reduced to what the core reads: the display label (`properties.label`,
   * named `displayLabel` here because `label` is a Dafny keyword) and the
   * provider-assigned `id` that history and favorites deduplicate on. The score and the
   * geometry travel with it untouched.
   */
  datatype Address = Address(displayLabel: string, id: string, score: real, geometry: Point)

  /** The whole session state of the search controller. */
  datatype SearchState = SearchState(
    query: string,
    results: seq<Address>,
    loading: bool,
    error: string,
    showResults: bool,
    selectedAddress: Option<Address>,
    limit: int,
    autocomplete: bool)

  /** One remembered selection: the query as typed when the address was picked. */
  datatype HistoryEntry = HistoryEntry(id: string, query: string, address: Address, timestamp: int)

  /** One saved address with an optional nickname. */
  datatype FavoriteEntry = FavoriteEntry(id: string, address: Address, nickname: Option<string>, timestamp: int)

  /** The tunables of the search controller that its logic reads. */
  datatype SearchConfig = SearchConfig(debounceMs: int, minQueryLength: int, defaultLimit: int)
}
