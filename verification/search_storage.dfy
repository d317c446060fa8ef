/**
 * The history and favorites lists of `useSearchHistory` and `useFavorites`
 * (src/hooks/useSearchStorage.ts) as pure list operations with a write-through snapshot.
 *
 * Each list lives in a `Store`: the in-memory list the hook renders, and the snapshot that
 * storage holds under the list's key. Every mutation writes the whole new list; the write may
 * throw (`writeOk` false), which is logged and leaves the snapshot as it was, while the
 * in-memory list is updated regardless. Fresh entry ids and the clock are parameters.
 */
module SearchStorage {
  import opened Types
  import opened Seqs

  const MaxHistoryItems := 10

  /** An in-memory list and the snapshot under its storage key; `None` when the key is absent. */
  datatype Store<T> = Store(items: seq<T>, persisted: Option<seq<T>>)

  /** `localStorage.setItem` of the whole list, which may fail. */
  function WriteThrough<T>(s: Store<T>, items: seq<T>, writeOk: bool): Store<T> {
    Store(items, if writeOk then Some(items) else s.persisted)
  }

  // ----- history -----

  function OtherAddressThan(id: string): HistoryEntry -> bool {
    (e: HistoryEntry) => e.address.id != id
  }

  function OtherEntryThan(id: string): HistoryEntry -> bool {
    (e: HistoryEntry) => e.id != id
  }

  /** No two entries share an entry id. */
  predicate UniqueHistoryIds(h: seq<HistoryEntry>) {
    forall i, j :: 0 <= i < j < |h| ==> h[i].id != h[j].id
  }

  /** No two entries are for the same address id. */
  predicate OnePerAddress(h: seq<HistoryEntry>) {
    forall i, j :: 0 <= i < j < |h| ==> h[i].address.id != h[j].address.id
  }

  /** `addToHistory(query, address)`: drop the entries for the address, prepend, keep ten. */
  function AddToHistory(h: Store<HistoryEntry>, query: string, address: Address, freshId: string, now: int,
                        writeOk: bool): (r: Store<HistoryEntry>)
    // the new entry is first, and it is the only one for its address
    ensures |r.items| >= 1 && r.items[0] == HistoryEntry(freshId, query, address, now)
    ensures forall i :: 1 <= i < |r.items| ==> r.items[i].address.id != address.id
    // the length is capped at ten
    ensures |r.items| == if 1 + |Filter(h.items, OtherAddressThan(address.id))| < MaxHistoryItems
                         then 1 + |Filter(h.items, OtherAddressThan(address.id))| else MaxHistoryItems
    // the kept old entries are the first ones for other addresses, in their old order
    ensures r.items[1..] == Filter(h.items, OtherAddressThan(address.id))[..|r.items| - 1]
    ensures Subseq(r.items[1..], h.items)
    // the snapshot follows the list when the write succeeds
    ensures r.persisted == if writeOk then Some(r.items) else h.persisted
  {
    var filtered := Filter(h.items, OtherAddressThan(address.id));
    var updated := SliceTo([HistoryEntry(freshId, query, address, now)] + filtered, MaxHistoryItems);
    FilterSubseq(h.items, OtherAddressThan(address.id));
    assert updated[1..] == filtered[..|updated| - 1];
    SubseqPrefix(filtered, h.items, |updated| - 1);
    WriteThrough(h, updated, writeOk)
  }

  /** `removeFromHistory(id)`: exactly the entries with that entry id go, the rest keep their order. */
  function RemoveFromHistory(h: Store<HistoryEntry>, id: string, writeOk: bool): (r: Store<HistoryEntry>)
    ensures forall e :: e in r.items <==> e in h.items && e.id != id
    // every copy of a kept entry stays, and the kept entries keep their order
    ensures forall e :: multiset(r.items)[e] == if e.id == id then 0 else multiset(h.items)[e]
    ensures Subseq(r.items, h.items)
    ensures r.persisted == if writeOk then Some(r.items) else h.persisted
  {
    var updated := Filter(h.items, OtherEntryThan(id));
    FilterSubseq(h.items, OtherEntryThan(id));
    FilterMembers(h.items, OtherEntryThan(id));
    FilterCounts(h.items, OtherEntryThan(id));
    WriteThrough(h, updated, writeOk)
  }

  /** `clearHistory()`: the list empties and the key is removed, unless removal throws. */
  function ClearHistory(h: Store<HistoryEntry>, removeOk: bool): (r: Store<HistoryEntry>)
    ensures r.items == []
    ensures r.persisted == if removeOk then None else h.persisted
  {
    Store([], if removeOk then None else h.persisted)
  }

  // ----- favorites -----

  function SameAddressAs(id: string): FavoriteEntry -> bool {
    (f: FavoriteEntry) => f.address.id == id
  }

  function OtherFavoriteThan(id: string): FavoriteEntry -> bool {
    (f: FavoriteEntry) => f.id != id
  }

  /** No two favorites share an entry id. */
  predicate UniqueFavoriteIds(f: seq<FavoriteEntry>) {
    forall i, j :: 0 <= i < j < |f| ==> f[i].id != f[j].id
  }

  /** At most one favorite per address id. */
  predicate OneFavoritePerAddress(f: seq<FavoriteEntry>) {
    forall i, j :: 0 <= i < j < |f| ==> f[i].address.id != f[j].address.id
  }

  /** `prev.some(fav => fav.address.properties.id === id)`, scanning from the front. */
  function HasAddress(f: seq<FavoriteEntry>, id: string): (r: bool)
    ensures r <==> exists i :: 0 <= i < |f| && f[i].address.id == id
  {
    if f == [] then false
    else if f[0].address.id == id then true
    else
      var r := HasAddress(f[1..], id);
      assert forall i :: 1 <= i < |f| ==> f[1..][i - 1] == f[i];
      r
  }

  /** `isFavorite(address)`: some favorite is for the address's id. */
  function IsFavorite(f: seq<FavoriteEntry>, address: Address): (r: bool)
    ensures r <==> exists i :: 0 <= i < |f| && f[i].address.id == address.id
  {
    HasAddress(f, address.id)
  }

  /** `favorites.find(...)`: the index of the first favorite for the address id, if any. */
  function FindFavorite(f: seq<FavoriteEntry>, id: string): (r: Option<nat>)
    ensures r.None? <==> !HasAddress(f, id)
    ensures r.Some? ==>
      && r.value < |f| && f[r.value].address.id == id
      && forall j :: 0 <= j < r.value ==> f[j].address.id != id
  {
    if f == [] then None
    else if f[0].address.id == id then Some(0)
    else
      match FindFavorite(f[1..], id)
      case None => None
      case Some(k) => Some(k + 1)
  }

  /** `addToFavorites(address, nickname)`: the first favorite for an address wins. */
  function AddToFavorites(f: Store<FavoriteEntry>, address: Address, nickname: Option<string>, freshId: string,
                          now: int, writeOk: bool): (r: Store<FavoriteEntry>)
    // already a favorite: nothing changes, not even the snapshot
    ensures IsFavorite(f.items, address) ==> r == f
    // otherwise the new favorite is appended
    ensures !IsFavorite(f.items, address) ==>
      && r.items == f.items + [FavoriteEntry(freshId, address, nickname, now)]
      && |r.items| == |f.items| + 1
      && r.persisted == (if writeOk then Some(r.items) else f.persisted)
    ensures IsFavorite(r.items, address)
  {
    if HasAddress(f.items, address.id) then f
    else
      var updated := f.items + [FavoriteEntry(freshId, address, nickname, now)];
      assert updated[|f.items|].address.id == address.id;
      WriteThrough(f, updated, writeOk)
  }

  /** `removeFromFavorites(id)`: exactly the favorites with that entry id go, the rest keep their order. */
  function RemoveFromFavorites(f: Store<FavoriteEntry>, id: string, writeOk: bool): (r: Store<FavoriteEntry>)
    ensures forall e :: e in r.items <==> e in f.items && e.id != id
    // every copy of a kept favorite stays, and the kept favorites keep their order
    ensures forall e :: multiset(r.items)[e] == if e.id == id then 0 else multiset(f.items)[e]
    ensures Subseq(r.items, f.items)
    ensures r.persisted == if writeOk then Some(r.items) else f.persisted
  {
    FilterSubseq(f.items, OtherFavoriteThan(id));
    FilterMembers(f.items, OtherFavoriteThan(id));
    FilterCounts(f.items, OtherFavoriteThan(id));
    WriteThrough(f, Filter(f.items, OtherFavoriteThan(id)), writeOk)
  }

  /** `prev.map(...)`: the favorites with entry id `id` get `nickname`. */
  function Rename(f: seq<FavoriteEntry>, id: string, nickname: string): (r: seq<FavoriteEntry>)
    ensures |r| == |f|
    ensures forall i :: 0 <= i < |f| ==>
      && r[i].id == f[i].id && r[i].address == f[i].address && r[i].timestamp == f[i].timestamp
      && r[i].nickname == if f[i].id == id then Some(nickname) else f[i].nickname
  {
    if f == [] then []
    else
      [if f[0].id == id then f[0].(nickname := Some(nickname)) else f[0]] + Rename(f[1..], id, nickname)
  }

  /** `updateFavoriteNickname(id, nickname)`: only the nickname of the matching favorites changes. */
  function UpdateFavoriteNickname(f: Store<FavoriteEntry>, id: string, nickname: string, writeOk: bool)
    : (r: Store<FavoriteEntry>)
    ensures |r.items| == |f.items|
    ensures forall i :: 0 <= i < |f.items| ==>
      && r.items[i].id == f.items[i].id && r.items[i].address == f.items[i].address
      && r.items[i].timestamp == f.items[i].timestamp
      && r.items[i].nickname == if f.items[i].id == id then Some(nickname) else f.items[i].nickname
    ensures r.persisted == if writeOk then Some(r.items) else f.persisted
  {
    WriteThrough(f, Rename(f.items, id, nickname), writeOk)
  }

  // ----- facts about the two lists -----

  /** `addToHistory` keeps one entry per address, and unique entry ids when the new id is fresh. */
  lemma AddToHistoryKeepsInvariants(h: Store<HistoryEntry>, query: string, address: Address, freshId: string,
                                    now: int, writeOk: bool)
    requires OnePerAddress(h.items) && UniqueHistoryIds(h.items)
    requires forall i :: 0 <= i < |h.items| ==> h.items[i].id != freshId
    ensures OnePerAddress(AddToHistory(h, query, address, freshId, now, writeOk).items)
    ensures UniqueHistoryIds(AddToHistory(h, query, address, freshId, now, writeOk).items)
  {
    var r := AddToHistory(h, query, address, freshId, now, writeOk).items;
    var rest := r[1..];
    SubseqMembers(rest, h.items);
    assert Distinct(h.items) by {
      forall i, j | 0 <= i < j < |h.items| ensures h.items[i] != h.items[j] {
        assert h.items[i].id != h.items[j].id;
      }
    }
    SubseqDistinct(rest, h.items);
    assert forall k :: 0 <= k < |rest| ==> rest[k] in h.items;
    forall i, j | 0 <= i < j < |r| ensures r[i].address.id != r[j].address.id && r[i].id != r[j].id {
      if i > 0 {
        assert r[i] == rest[i - 1] && r[j] == rest[j - 1];
        var a :| 0 <= a < |h.items| && h.items[a] == rest[i - 1];
        var b :| 0 <= b < |h.items| && h.items[b] == rest[j - 1];
        assert a != b;
      } else {
        assert r[j] == rest[j - 1] && r[j] in h.items;
      }
    }
  }

  /** Selecting the same address twice leaves one entry for it, first, with the later query and time. */
  lemma AddToHistoryTwice(h: Store<HistoryEntry>, q1: string, q2: string, address: Address, id1: string,
                          id2: string, t1: int, t2: int, ok1: bool, ok2: bool)
    ensures var r := AddToHistory(AddToHistory(h, q1, address, id1, t1, ok1), q2, address, id2, t2, ok2).items;
      && r[0] == HistoryEntry(id2, q2, address, t2)
      && forall i :: 0 <= i < |r| && r[i].address.id == address.id ==> i == 0
  {
  }

  /** On a full history without the address, the new entry pushes out exactly the oldest one. */
  lemma {:induction false} AddToFullHistoryDropsOldest(h: Store<HistoryEntry>, query: string, address: Address,
                                                      freshId: string, now: int, writeOk: bool)
    requires |h.items| == MaxHistoryItems
    requires forall i :: 0 <= i < |h.items| ==> h.items[i].address.id != address.id
    ensures AddToHistory(h, query, address, freshId, now, writeOk).items
      == [HistoryEntry(freshId, query, address, now)] + h.items[..MaxHistoryItems - 1]
  {
    FilterAll(h.items, OtherAddressThan(address.id));
    var r := AddToHistory(h, query, address, freshId, now, writeOk).items;
    assert r == [r[0]] + r[1..];
  }

  /** A failed storage write never changes what the hooks hold in memory. */
  lemma WriteFailureKeepsMemory(h: Store<HistoryEntry>, f: Store<FavoriteEntry>, query: string, address: Address,
                                nickname: Option<string>, id: string, freshId: string, now: int, nick: string)
    ensures AddToHistory(h, query, address, freshId, now, false).items
         == AddToHistory(h, query, address, freshId, now, true).items
    ensures RemoveFromHistory(h, id, false).items == RemoveFromHistory(h, id, true).items
    ensures ClearHistory(h, false).items == ClearHistory(h, true).items
    ensures AddToFavorites(f, address, nickname, freshId, now, false).items
         == AddToFavorites(f, address, nickname, freshId, now, true).items
    ensures RemoveFromFavorites(f, id, false).items == RemoveFromFavorites(f, id, true).items
    ensures UpdateFavoriteNickname(f, id, nick, false).items == UpdateFavoriteNickname(f, id, nick, true).items
  {
  }

  /** Removing an entry id no entry has leaves either list as it was in memory. */
  lemma RemoveAbsentIdKeepsList(h: Store<HistoryEntry>, f: Store<FavoriteEntry>, id: string, writeOk: bool)
    ensures (forall i :: 0 <= i < |h.items| ==> h.items[i].id != id) ==>
      RemoveFromHistory(h, id, writeOk).items == h.items
    ensures (forall i :: 0 <= i < |f.items| ==> f.items[i].id != id) ==>
      RemoveFromFavorites(f, id, writeOk).items == f.items
  {
    if forall i :: 0 <= i < |h.items| ==> h.items[i].id != id {
      FilterAll(h.items, OtherEntryThan(id));
    }
    if forall i :: 0 <= i < |f.items| ==> f.items[i].id != id {
      FilterAll(f.items, OtherFavoriteThan(id));
    }
  }

  /** `addToFavorites` keeps one favorite per address, and unique entry ids when the new id is fresh. */
  lemma AddToFavoritesKeepsInvariants(f: Store<FavoriteEntry>, address: Address, nickname: Option<string>,
                                      freshId: string, now: int, writeOk: bool)
    requires OneFavoritePerAddress(f.items) && UniqueFavoriteIds(f.items)
    requires forall i :: 0 <= i < |f.items| ==> f.items[i].id != freshId
    ensures OneFavoritePerAddress(AddToFavorites(f, address, nickname, freshId, now, writeOk).items)
    ensures UniqueFavoriteIds(AddToFavorites(f, address, nickname, freshId, now, writeOk).items)
  {
  }

  /** Filtering out the entry id of the favorite at `k`, when no other favorite has it, deletes exactly that favorite. */
  lemma RemoveUniqueFavorite(f: seq<FavoriteEntry>, k: nat)
    requires k < |f| && forall i :: 0 <= i < |f| && i != k ==> f[i].id != f[k].id
    ensures Filter(f, OtherFavoriteThan(f[k].id)) == f[..k] + f[k + 1..]
  {
    FilterRemovesOne(f, OtherFavoriteThan(f[k].id), k);
  }
}
