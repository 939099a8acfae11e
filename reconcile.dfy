/** The load-time merge: the catalog the API returned is laid down first, each film
    not viewed and not rated, and the films saved in local storage are then written
    over it by id, exactly as the page fills and then flattens a JavaScript `Map`. */
module Reconciliation {
  import opened Films
  import opened Sequences
  import opened OrderedMaps

  function SavedList(saved: Option<seq<Film>>): seq<Film>
  {
    if saved.Some? then saved.value else []
  }

  /** Every `set` the load performs on the map, in order: one baseline entry per
      catalog film, then every saved film. */
  function Writes(catalog: seq<Summary>, saved: Option<seq<Film>>): seq<Film>
  {
    Baselines(catalog) + SavedList(saved)
  }

  /** For every id written, the film most recently written under that id. */
  function Latest(w: seq<Film>): (m: map<string, Film>)
    ensures forall k :: k in m <==> k in Ids(w)
    ensures forall k :: k in m ==> m[k].id == k
  {
    if w == [] then map[]
    else
      var p, f := w[..|w| - 1], w[|w| - 1];
      assert w == p + [f];
      IdsAppend(p, [f]);
      assert Ids(w) == Ids(p) + [f.id];
      Latest(p)[f.id := f]
  }

  /** What the load produces: one film per distinct id, ids in the order they were
      first written, each carrying the last film written under its id. */
  function Reconciled(catalog: seq<Summary>, saved: Option<seq<Film>>): (r: seq<Film>)
    ensures Distinct(Ids(r))
    ensures forall k :: k in Ids(r) <==> k in CatalogIds(catalog) || k in Ids(SavedList(saved))
  {
    var w := Writes(catalog, saved);
    DedupMembers(Ids(w));
    DedupDistinct(Ids(w));
    var r := ValuesInOrder(Dedup(Ids(w)), Latest(w));
    assert Ids(r) == Dedup(Ids(w));
    IdsAppend(Baselines(catalog), SavedList(saved));
    BaselineIds(catalog);
    r
  }

  lemma ReconciledIs(catalog: seq<Summary>, saved: Option<seq<Film>>)
    ensures var w := Writes(catalog, saved); forall k :: k in Dedup(Ids(w)) ==> k in Latest(w)
    ensures var w := Writes(catalog, saved);
      Reconciled(catalog, saved) == ValuesInOrder(Dedup(Ids(w)), Latest(w))
  {
    DedupMembers(Ids(Writes(catalog, saved)));
  }

  lemma ReconciledShape(catalog: seq<Summary>, saved: Option<seq<Film>>)
    ensures var w := Writes(catalog, saved);
      && Ids(Reconciled(catalog, saved)) == Dedup(Ids(w))
      && forall i :: 0 <= i < |Reconciled(catalog, saved)| ==>
           Dedup(Ids(w))[i] in Latest(w) && Reconciled(catalog, saved)[i] == Latest(w)[Dedup(Ids(w))[i]]
  {
    var w := Writes(catalog, saved);
    ReconciledIs(catalog, saved);
    assert Ids(Reconciled(catalog, saved)) == Dedup(Ids(w));
  }

  /** One more `set` on the map, in terms of the writes so far. */
  lemma WriteStep(w: seq<Film>, f: Film)
    ensures Dedup(Ids(w + [f])) == if f.id in Latest(w) then Dedup(Ids(w)) else Dedup(Ids(w)) + [f.id]
    ensures Latest(w + [f]) == Latest(w)[f.id := f]
  {
    assert (w + [f])[..|w|] == w;
    IdsAppend(w, [f]);
    DedupSnoc(Ids(w), f.id);
  }

  lemma CatalogStep(catalog: seq<Summary>, i: nat)
    requires i < |catalog|
    ensures var w, f := Baselines(catalog[..i]), Baseline(catalog[i]);
      && Dedup(Ids(Baselines(catalog[..i + 1]))) == (if f.id in Latest(w) then Dedup(Ids(w)) else Dedup(Ids(w)) + [f.id])
      && Latest(Baselines(catalog[..i + 1])) == Latest(w)[f.id := f]
  {
    assert Baselines(catalog[..i + 1]) == Baselines(catalog[..i]) + [Baseline(catalog[i])];
    WriteStep(Baselines(catalog[..i]), Baseline(catalog[i]));
  }

  lemma SavedStep(base: seq<Film>, saved: seq<Film>, j: nat)
    requires j < |saved|
    ensures var w, f := base + saved[..j], saved[j];
      && Dedup(Ids(base + saved[..j + 1])) == (if f.id in Latest(w) then Dedup(Ids(w)) else Dedup(Ids(w)) + [f.id])
      && Latest(base + saved[..j + 1]) == Latest(w)[f.id := f]
  {
    assert base + saved[..j + 1] == (base + saved[..j]) + [saved[j]];
    WriteStep(base + saved[..j], saved[j]);
  }

  /** The load as the page runs it: the catalog loop and, when storage holds a list,
      the saved-films loop, both writing into one `Map`, then `Array.from`. */
  method Reconcile(catalog: seq<Summary>, saved: Option<seq<Film>>) returns (films: seq<Film>)
    ensures films == Reconciled(catalog, saved)
  {
    var byId := new OrderedMap<Film>();
    PutCatalog(byId, catalog);
    if saved.Some? {
      PutSaved(byId, Baselines(catalog), saved.value);
    } else {
      assert Baselines(catalog) + [] == Baselines(catalog);
    }
    films := byId.Values();
    ValuesAreReconciled(catalog, saved, byId.keys, byId.entries, films);
  }

  /** The catalog loop: one entry per catalog film, not viewed and not rated. */
  method PutCatalog(byId: OrderedMap<Film>, catalog: seq<Summary>)
    requires byId.Valid() && byId.keys == [] && byId.entries == map[]
    modifies byId
    ensures byId.Valid()
    ensures byId.keys == Dedup(Ids(Baselines(catalog))) && byId.entries == Latest(Baselines(catalog))
  {
    for i := 0 to |catalog|
      invariant byId.Valid()
      invariant byId.keys == Dedup(Ids(Baselines(catalog[..i])))
      invariant byId.entries == Latest(Baselines(catalog[..i]))
    {
      var s := catalog[i];
      CatalogStep(catalog, i);
      byId.Set(s.id, Film(s.id, s.title, s.description, false, None));
    }
    assert catalog[..|catalog|] == catalog;
  }

  /** The saved-films loop: every saved film is written over whatever its id holds. */
  method PutSaved(byId: OrderedMap<Film>, ghost base: seq<Film>, savedFilms: seq<Film>)
    requires byId.Valid() && byId.keys == Dedup(Ids(base)) && byId.entries == Latest(base)
    modifies byId
    ensures byId.Valid()
    ensures byId.keys == Dedup(Ids(base + savedFilms)) && byId.entries == Latest(base + savedFilms)
  {
    assert base + savedFilms[..0] == base;
    for j := 0 to |savedFilms|
      invariant byId.Valid()
      invariant byId.keys == Dedup(Ids(base + savedFilms[..j]))
      invariant byId.entries == Latest(base + savedFilms[..j])
    {
      var film := savedFilms[j];
      SavedStep(base, savedFilms, j);
      byId.Set(film.id, film);
    }
    assert savedFilms[..|savedFilms|] == savedFilms;
  }

  /** Flattening the map left by all the writes gives the load's result. */
  lemma ValuesAreReconciled(catalog: seq<Summary>, saved: Option<seq<Film>>,
                            keys: seq<string>, entries: map<string, Film>, films: seq<Film>)
    requires keys == Dedup(Ids(Writes(catalog, saved))) && entries == Latest(Writes(catalog, saved))
    requires |films| == |keys| && forall i :: 0 <= i < |keys| ==> keys[i] in entries && films[i] == entries[keys[i]]
    ensures films == Reconciled(catalog, saved)
  {
    ReconciledIs(catalog, saved);
  }

  /** A lookup by id yields the last film written under that id. */
  lemma {:induction false} LatestIsLastWrite(w: seq<Film>, k: string)
    requires k in Ids(w)
    ensures exists j :: 0 <= j < |w| && w[j] == Latest(w)[k] && forall j' :: j < j' < |w| ==> w[j'].id != k
  {
    var p, f := w[..|w| - 1], w[|w| - 1];
    assert w == p + [f];
    if f.id != k {
      IdsAppend(p, [f]);
      assert k in Ids(p);
      LatestIsLastWrite(p, k);
      var j :| 0 <= j < |p| && p[j] == Latest(p)[k] && forall j' :: j < j' < |p| ==> p[j'].id != k;
      assert w[j] == Latest(w)[k];
    }
  }

  /** Writes made later override everything written before them. */
  lemma {:induction false} LatestAppendRight(a: seq<Film>, b: seq<Film>, k: string)
    requires k in Ids(b)
    ensures k in Latest(a + b) && Latest(a + b)[k] == Latest(b)[k]
  {
    var p, f := b[..|b| - 1], b[|b| - 1];
    assert b == p + [f];
    assert a + b == (a + p) + [f];
    WriteStep(a + p, f);
    WriteStep(p, f);
    if f.id != k {
      IdsAppend(p, [f]);
      assert k in Ids(p);
      LatestAppendRight(a, p, k);
    }
  }

  /** Writes made later are invisible to ids they do not mention. */
  lemma {:induction false} LatestAppendLeft(a: seq<Film>, b: seq<Film>, k: string)
    requires k in Ids(a) && k !in Ids(b)
    ensures k in Latest(a + b) && Latest(a + b)[k] == Latest(a)[k]
  {
    if b == [] {
      assert a + b == a;
    } else {
      var p, f := b[..|b| - 1], b[|b| - 1];
      assert b == p + [f];
      assert a + b == (a + p) + [f];
      WriteStep(a + p, f);
      IdsAppend(p, [f]);
      assert Ids(b) == Ids(p) + [f.id];
      LatestAppendLeft(a, p, k);
    }
  }

  /** An id the second run of writes mentions ends up with the last film of that run carrying it. */
  lemma LastWriteInSuffix(a: seq<Film>, b: seq<Film>, k: string)
    requires k in Ids(b)
    ensures k in Latest(a + b)
    ensures exists j :: 0 <= j < |b| && b[j] == Latest(a + b)[k] && forall j' :: j < j' < |b| ==> b[j'].id != k
  {
    LatestAppendRight(a, b, k);
    LatestIsLastWrite(b, k);
  }

  /** An id only the first run of writes mentions ends up with the last film of that run carrying it. */
  lemma LastWriteInPrefix(a: seq<Film>, b: seq<Film>, k: string)
    requires k in Ids(a) && k !in Ids(b)
    ensures k in Latest(a + b)
    ensures exists j :: 0 <= j < |a| && a[j] == Latest(a + b)[k] && forall j' :: j < j' < |a| ==> a[j'].id != k
  {
    LatestAppendLeft(a, b, k);
    LatestIsLastWrite(a, k);
  }

  /** When no id repeats, each film is what a lookup of its own id yields. */
  lemma {:induction false} LatestOfDistinct(w: seq<Film>, i: nat)
    requires Distinct(Ids(w)) && i < |w|
    ensures w[i].id in Latest(w) && Latest(w)[w[i].id] == w[i]
  {
    var p, f := w[..|w| - 1], w[|w| - 1];
    assert w == p + [f];
    WriteStep(p, f);
    if i < |p| {
      assert Ids(p) == Ids(w)[..|p|];
      assert Ids(w)[i] != Ids(w)[|p|];
      LatestOfDistinct(p, i);
    }
  }

  /** Entry `i` of the load's result is what a lookup of its id yields after all writes. */
  lemma ReconciledEntry(catalog: seq<Summary>, saved: Option<seq<Film>>, i: nat)
    requires i < |Reconciled(catalog, saved)|
    ensures var f, w := Reconciled(catalog, saved)[i], Writes(catalog, saved);
      f.id in Latest(w) && f == Latest(w)[f.id]
  {
    var w := Writes(catalog, saved);
    var r := Reconciled(catalog, saved);
    ReconciledShape(catalog, saved);
    assert Ids(r)[i] == r[i].id;
  }

  /** Catalog ids come first, in catalog order (the first occurrence decides the position);
      ids known only from storage follow, in the order storage lists them. */
  lemma ReconcileOrder(catalog: seq<Summary>, saved: Option<seq<Film>>)
    ensures Ids(Reconciled(catalog, saved))
         == Dedup(CatalogIds(catalog)) + Dedup(Without(Ids(SavedList(saved)), CatalogIds(catalog)))
  {
    ReconciledShape(catalog, saved);
    IdsAppend(Baselines(catalog), SavedList(saved));
    BaselineIds(catalog);
    DedupAppend(CatalogIds(catalog), Ids(SavedList(saved)));
  }

  /** Saved films whose ids the catalog already has do not change the list of ids. */
  lemma ReconcileKnownIds(catalog: seq<Summary>, saved: Option<seq<Film>>)
    requires forall k :: k in Ids(SavedList(saved)) ==> k in CatalogIds(catalog)
    ensures Ids(Reconciled(catalog, saved)) == Dedup(CatalogIds(catalog))
  {
    ReconcileOrder(catalog, saved);
    WithoutCovered(Ids(SavedList(saved)), CatalogIds(catalog));
    assert Dedup<string>([]) == [];
  }

  /** A saved film replaces the whole entry for its id; when storage lists an id
      more than once, the last of them is the one kept. */
  lemma ReconcileSavedWins(catalog: seq<Summary>, saved: seq<Film>, i: nat)
    requires i < |Reconciled(catalog, Some(saved))|
    requires Reconciled(catalog, Some(saved))[i].id in Ids(saved)
    ensures var f := Reconciled(catalog, Some(saved))[i];
      exists j :: 0 <= j < |saved| && saved[j] == f && forall j' :: j < j' < |saved| ==> saved[j'].id != f.id
  {
    var f := Reconciled(catalog, Some(saved))[i];
    ReconciledEntry(catalog, Some(saved), i);
    LastWriteInSuffix(Baselines(catalog), saved, f.id);
  }

  /** An id storage does not mention keeps the catalog's data for it (the last catalog
      film with that id), not viewed and not rated. */
  lemma ReconcileCatalogDefault(catalog: seq<Summary>, saved: Option<seq<Film>>, i: nat)
    requires i < |Reconciled(catalog, saved)|
    requires Reconciled(catalog, saved)[i].id !in Ids(SavedList(saved))
    ensures var f := Reconciled(catalog, saved)[i];
      && !f.viewed && f.rating == None
      && exists j :: 0 <= j < |catalog| && f == Baseline(catalog[j])
           && forall j' :: j < j' < |catalog| ==> catalog[j'].id != f.id
  {
    var base := Baselines(catalog);
    var f := Reconciled(catalog, saved)[i];
    var k := f.id;
    ReconciledEntry(catalog, saved, i);
    IdsAppend(base, SavedList(saved));
    LastWriteInPrefix(base, SavedList(saved), k);
    var j :| 0 <= j < |base| && base[j] == f && forall j' :: j < j' < |base| ==> base[j'].id != k;
    forall j' | j < j' < |catalog|
      ensures catalog[j'].id != k
    {
      assert base[j'].id == catalog[j'].id;
    }
  }

  /** With nothing saved, every catalog id appears once, in catalog order, not viewed and not rated. */
  lemma ReconcileWithoutSaved(catalog: seq<Summary>)
    ensures Ids(Reconciled(catalog, None)) == Dedup(CatalogIds(catalog))
    ensures forall f :: f in Reconciled(catalog, None) ==> !f.viewed && f.rating == None
  {
    var r := Reconciled(catalog, None);
    ReconcileKnownIds(catalog, None);
    forall f | f in r
      ensures !f.viewed && f.rating == None
    {
      var i :| 0 <= i < |r| && r[i] == f;
      ReconcileCatalogDefault(catalog, None, i);
    }
  }

  /** With nothing saved and a catalog without repeated ids, the list is the catalog itself. */
  lemma ReconcileFreshCatalog(catalog: seq<Summary>)
    requires Distinct(CatalogIds(catalog))
    ensures Reconciled(catalog, None) == Baselines(catalog)
  {
    var w := Writes(catalog, None);
    var r := Reconciled(catalog, None);
    assert w == Baselines(catalog);
    BaselineIds(catalog);
    DedupOfDistinct(Ids(w));
    ReconciledShape(catalog, None);
    forall i | 0 <= i < |r|
      ensures r[i] == w[i]
    {
      assert Ids(w)[i] == w[i].id;
      LatestOfDistinct(w, i);
    }
  }

  /** Loading a list that already starts with every catalog id in catalog order, has no
      repeated id, and is the saved state gives back that same list. */
  lemma ReloadStable(catalog: seq<Summary>, films: seq<Film>)
    requires Distinct(Ids(films))
    requires Dedup(CatalogIds(catalog) + Ids(films)) == Ids(films)
    ensures Reconciled(catalog, Some(films)) == films
  {
    var w := Writes(catalog, Some(films));
    var r := Reconciled(catalog, Some(films));
    IdsAppend(Baselines(catalog), films);
    BaselineIds(catalog);
    ReconciledShape(catalog, Some(films));
    assert |r| == |films|;
    forall i | 0 <= i < |r|
      ensures r[i] == films[i]
    {
      var k := films[i].id;
      assert Ids(films)[i] == k;
      LatestAppendRight(Baselines(catalog), films, k);
      LatestOfDistinct(films, i);
    }
  }

  /** The ids of a load's result already start with the catalog ids in catalog order. */
  lemma ReconciledIdsAbsorbCatalog(catalog: seq<Summary>, saved: Option<seq<Film>>)
    ensures Dedup(CatalogIds(catalog) + Ids(Reconciled(catalog, saved))) == Ids(Reconciled(catalog, saved))
  {
    ReconciledShape(catalog, saved);
    IdsAppend(Baselines(catalog), SavedList(saved));
    BaselineIds(catalog);
    DedupAbsorbs(CatalogIds(catalog), Ids(SavedList(saved)));
  }

  /** Loading the result of a load again, as the saved state, changes nothing. */
  lemma ReconcileIdempotent(catalog: seq<Summary>, saved: Option<seq<Film>>)
    ensures Reconciled(catalog, Some(Reconciled(catalog, saved))) == Reconciled(catalog, saved)
  {
    ReconciledIdsAbsorbCatalog(catalog, saved);
    ReloadStable(catalog, Reconciled(catalog, saved));
  }
}
