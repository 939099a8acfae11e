/** Local storage: the page keeps the whole list under one key and writes it back
    whenever the list changes, unless the list is empty. */
module Storage {
  import opened Films
  import opened Sequences
  import opened Reconciliation
  import opened ListEdits

  const StorageKey: string := "GHIBLI_FILMS"

  /** The browser's key-value store, the JSON text under each key taken as already decoded. */
  type Store = map<string, seq<Film>>

  /** `localStorage.getItem` on the page's key: the saved list, or nothing when the key is absent. */
  function Load(store: Store): (saved: Option<seq<Film>>)
    ensures saved.Some? <==> StorageKey in store
    ensures saved.Some? ==> saved.value == store[StorageKey]
  {
    if StorageKey in store then Some(store[StorageKey]) else None
  }

  /** The save effect: a non-empty list replaces what is stored under the page's key;
      an empty list is not written, so the previous contents stay. */
  function Save(store: Store, films: seq<Film>): (r: Store)
    ensures films == [] ==> r == store
    ensures films != [] ==> Load(r) == Some(films)
    ensures forall k :: k != StorageKey ==> (k in r <==> k in store)
    ensures forall k :: k != StorageKey && k in r ==> r[k] == store[k]
  {
    if |films| > 0 then store[StorageKey := films] else store
  }

  /** A non-empty list with the ids of a load's result, once saved, is exactly what the
      next load against the same catalog produces. */
  lemma ReloadAfterSave(catalog: seq<Summary>, saved: Option<seq<Film>>, store: Store, films: seq<Film>)
    requires Ids(films) == Ids(Reconciled(catalog, saved))
    requires films != []
    ensures Reconciled(catalog, Load(Save(store, films))) == films
  {
    ReconciledIdsAbsorbCatalog(catalog, saved);
    ReloadStable(catalog, films);
  }

  /** Ticking a checkbox, saving and reloading keeps the ticked state. */
  lemma ToggleSurvivesReload(catalog: seq<Summary>, saved: Option<seq<Film>>, store: Store, id: string, viewed: bool)
    requires Reconciled(catalog, saved) != []
    ensures var films := ToggleViewed(Reconciled(catalog, saved), id, viewed);
      Reconciled(catalog, Load(Save(store, films))) == films
  {
    ReloadAfterSave(catalog, saved, store, ToggleViewed(Reconciled(catalog, saved), id, viewed));
  }

  /** Rating a film, saving and reloading keeps the rating. */
  lemma RatingSurvivesReload(catalog: seq<Summary>, saved: Option<seq<Film>>, store: Store, id: string, rating: int)
    requires Reconciled(catalog, saved) != []
    ensures var films := SetRating(Reconciled(catalog, saved), id, rating);
      Reconciled(catalog, Load(Save(store, films))) == films
  {
    ReloadAfterSave(catalog, saved, store, SetRating(Reconciled(catalog, saved), id, rating));
  }
}
