/** The records the watch-list page works with. */
module Films {

  datatype Option<+T> = None | Some(value: T)

  /** A film as the catalog API describes it; the page reads only these three fields. */
  datatype Summary = Summary(id: string, title: string, description: string)

  /** A film together with the user's annotations: whether it was watched and,
      once the user has rated it, the rating the rating control reported. */
  datatype Film = Film(id: string, title: string, description: string, viewed: bool, rating: Option<int>)

  /** The ids of a list of films, in list order. */
  function Ids(films: seq<Film>): seq<string>
  {
    seq(|films|, i requires 0 <= i < |films| => films[i].id)
  }

  /** The ids of a catalog snapshot, in the order the API returned them. */
  function CatalogIds(catalog: seq<Summary>): seq<string>
  {
    seq(|catalog|, i requires 0 <= i < |catalog| => catalog[i].id)
  }

  /** The entry a catalog film gets before any saved state is applied: not viewed, not rated. */
  function Baseline(s: Summary): Film
  {
    Film(s.id, s.title, s.description, false, None)
  }

  function Baselines(catalog: seq<Summary>): seq<Film>
  {
    seq(|catalog|, i requires 0 <= i < |catalog| => Baseline(catalog[i]))
  }

  lemma IdsAppend(a: seq<Film>, b: seq<Film>)
    ensures Ids(a + b) == Ids(a) + Ids(b)
  {
  }

  lemma BaselineIds(catalog: seq<Summary>)
    ensures Ids(Baselines(catalog)) == CatalogIds(catalog)
  {
  }
}
