# Ghibli watch-list: the list logic, modelled in Dafny

The page lists the films of the Studio Ghibli catalog API. The user can tick each
film as viewed, give it a star rating and filter the list by title. The list is kept
in the browser's local storage under the key `GHIBLI_FILMS`. This project models the
list logic of `src/App.tsx` and proves what it does:

- **Load-time merge** (`reconcile.dfy`, module `Reconciliation`). The page fills a
  JavaScript `Map` keyed by film id. It first sets one entry per catalog film (not
  viewed, no rating). It then sets every saved film, and flattens the map back to a
  list. The `Map` is the class `OrderedMaps.OrderedMap` (`ordered_map.dfy`): a key
  sequence in insertion order plus a `map`. `Set` keeps an existing key's position
  and appends a new key. `Reconcile` runs the two loops of `Set` calls
  (`PutCatalog`, `PutSaved`), proved equal
  to the function `Reconciled`. That function says: one film per distinct id, ids in
  the order they were first written, each the last film written under its id. The
  lemmas derive the page's behaviour from it: order, override, defaults, uniqueness,
  last-wins and reload stability.
- **Title search, viewed checkbox, star rating** (`list_edits.dfy`, module
  `ListEdits`). These are pure functions that build a new list, as the page's
  `filter` and `map` calls do.
- **Save on change** (`storage.dfy`, module `Storage`). This is a pure step from one
  store to the next. A non-empty list is written under `GHIBLI_FILMS`; an empty one
  is not written. It comes with the round trip of save and reload.
- `films.dfy` holds the records. `sequences.dfy` holds the sequence facts the
  statements use: distinctness, de-duplication that keeps first occurrences,
  removal of elements, and subsequences.

Where the code does something other than what the page appears to offer, the model
follows the code:

- *Clearing a rating.* The rating control is `clearable` (`src/App.tsx:118`), which
  suggests a cleared rating becomes absent. The handler at `src/App.tsx:95-100`
  always stores the number the control reports, so `SetRating` always gives
  `Some(n)`. On clearing, the control's `onRate` reports some number (which one is
  not visible in `src/App.tsx`), and the handler stores it as `Some(n)`.
- *Toggling.* The checkbox reads as "flip the clicked film's flag". The handler at
  `src/App.tsx:84-89` gives every film with the clicked id the negation of the flag
  *the clicked row displayed*. `ToggleViewed` takes that displayed flag as an
  argument. `ToggleClickedRow` proves the two agree when ids are unique, and a load
  always produces unique ids.
- *Ids known only from storage.* They are kept and placed after all catalog ids, in
  storage order (`ReconcileOrder`).

## Model

| member | source | states |
|---|---|---|
| `OrderedMaps.OrderedMap.constructor` | src/App.tsx:32 | a new map has no keys and no entries |
| `OrderedMaps.OrderedMap.Set` | src/App.tsx:35-40 | `Map.set`: an existing key keeps its position and takes the new value; a new key goes last; keys stay distinct and match the entries |
| `OrderedMaps.OrderedMap.Values` | src/App.tsx:51 | `Array.from` over the map: the values, one per key, in key insertion order |
| `Reconciliation.Reconcile` | src/App.tsx:32-51 | the two `set` loops and the flattening give exactly `Reconciled(catalog, saved)` |
| `Reconciliation.PutCatalog` | src/App.tsx:34-41 | the catalog loop leaves the map holding, in first-written order, one baseline film per catalog id, the last one written for it |
| `Reconciliation.PutSaved` | src/App.tsx:43-49 | the saved-films loop leaves the map as if every saved film had been written, in order, after what it held |
| `Reconciliation.Reconciled` | src/App.tsx:32-51 | the loaded list has no repeated id, and its ids are exactly the catalog ids together with the saved ids |
| `Reconciliation.ReconcileOrder` | src/App.tsx:34-51 | ids: catalog ids first, in catalog order (first occurrence decides), then ids found only in storage, in storage order |
| `Reconciliation.ReconcileKnownIds` | src/App.tsx:46-51 | when every saved id is in the catalog, the ids and their order are the catalog's |
| `Reconciliation.ReconcileSavedWins` | src/App.tsx:46-48 | an entry whose id storage mentions is, whole, the last saved film with that id |
| `Reconciliation.ReconcileCatalogDefault` | src/App.tsx:34-41 | an entry whose id storage does not mention is the last catalog film with that id, not viewed and not rated |
| `Reconciliation.ReconcileWithoutSaved` | src/App.tsx:34-44 | with nothing saved: the catalog ids once each in catalog order, none viewed, none rated |
| `Reconciliation.ReconcileFreshCatalog` | src/App.tsx:34-41 | with nothing saved and no repeated catalog id, the list is the catalog, entry for entry, unannotated |
| `Reconciliation.LatestIsLastWrite` | src/App.tsx:48 | after a run of `set` calls, looking an id up yields the last film set under it |
| `Reconciliation.ReloadStable` | src/App.tsx:43-51 | saving a list that has no repeated id and starts with the catalog ids in catalog order, then loading, gives that list back |
| `Reconciliation.ReconcileIdempotent` | src/App.tsx:43-51 | feeding a load's result back in as the saved state gives the same result |
| `ListEdits.FilterByTitle` | src/App.tsx:79-82 | every film shown is in the list and its lower-cased title starts with the lower-cased query; every such film of the list is shown |
| `ListEdits.FilterCounts` | src/App.tsx:79-82 | the search shows each matching film as often as the list holds it, and no other film |
| `ListEdits.FilterIsSubsequence` | src/App.tsx:79-82 | the films shown keep their order in the list |
| `ListEdits.FilterEmptyQuery` | src/App.tsx:79-82 | an empty query shows the whole list |
| `ListEdits.FilterIgnoresCase` | src/App.tsx:81 | two queries that lower-case alike show the same films |
| `ListEdits.ToggleViewed` | src/App.tsx:84-89 | same length and ids; films with another id unchanged; films with the clicked id get the negated flag and keep every other field |
| `ListEdits.ToggleClickedRow` | src/App.tsx:84-89 | with unique ids, clicking a row flips that film's flag and changes nothing else |
| `ListEdits.ToggleTwice` | src/App.tsx:84-89 | with unique ids, clicking the same row twice restores the list |
| `ListEdits.SetRating` | src/App.tsx:95-101 | same length and ids; films with another id unchanged; films with the id get the reported rating and keep every other field |
| `ListEdits.SetRatingRow` | src/App.tsx:95-101 | with unique ids, rating a row changes that film's rating and nothing else |
| `ListEdits.SetRatingLastWins` | src/App.tsx:97-101 | rating the same id twice keeps only the second rating |
| `ListEdits.FilterAfterToggle` | src/App.tsx:79-89 | ticking a checkbox does not change which films the search shows |
| `ListEdits.FilterAfterRating` | src/App.tsx:79-101 | rating a film does not change which films the search shows |
| `Storage.Load` | src/App.tsx:43-44 | a saved list is found exactly when the page's key is present, and the list found is the one stored under that key |
| `Storage.Save` | src/App.tsx:56-61 | an empty list leaves the store unchanged; a non-empty one is what the next read returns; other keys are untouched |
| `Storage.ReloadAfterSave` | src/App.tsx:43-61 | a non-empty list with the ids of a load's result, once saved, is exactly what the next load produces |
| `Storage.ToggleSurvivesReload` | src/App.tsx:84-89 | a ticked checkbox, saved and reloaded, stays ticked: the toggled list comes back unchanged |
| `Storage.RatingSurvivesReload` | src/App.tsx:95-101 | a rating, saved and reloaded, comes back unchanged |

## Left out

- React state, effects and rendering (`src/App.tsx:25-29`, `64-127`). The model
  takes the list as an argument and returns the new list.
- Fetching the catalog (`src/App.tsx:136-142`) is network I/O. The catalog is a
  parameter of the load, and its failure is not modelled.
- `localStorage` and JSON (`src/App.tsx:43-45`, `60`). The store maps keys to
  already decoded lists. Empty stored text is falsy at `src/App.tsx:44`, so the page
  skips it exactly as it skips a missing key; the model's `None` covers both. Stored
  text that is malformed (`JSON.parse`, line 45) or not an array (`for…of`, line 46)
  is not modelled; the page does not guard against it.
- Fields beyond `id`, `title`, `description`, `viewed` and `rating`. The catalog
  type admits more fields. The page drops them for catalog films but keeps them
  for saved films.
- `console.log` diagnostics (`src/App.tsx:47`, `58`) are observability only.
- `Number.parseInt` and its NaN result (`src/App.tsx:95-96`). The rating is taken
  as the integer the control reports. The 1 to 5 range of the `Rating` enum is a
  type annotation the page never checks, so it is not enforced.
- ListEdits.FilterByTitle: lower-cases ASCII letters only; the full Unicode case
  mapping of `toLowerCase` is not modelled.
