/** The list operations behind the page's controls: the title search, the "viewed"
    checkbox and the star rating. Each builds a new list from the current one. */
module ListEdits {
  import opened Films
  import opened Sequences

  /** Lower-casing of one character, for the ASCII letters. */
  function Lower(c: char): char
  {
    if 'A' <= c <= 'Z' then (c as int + 32) as char else c
  }

  function LowerCase(s: string): string
  {
    seq(|s|, i requires 0 <= i < |s| => Lower(s[i]))
  }

  predicate StartsWith(s: string, prefix: string)
  {
    |prefix| <= |s| && s[..|prefix|] == prefix
  }

  /** The search condition: the lower-cased title starts with the lower-cased query. */
  predicate TitleMatches(f: Film, query: string)
  {
    StartsWith(LowerCase(f.title), LowerCase(query))
  }

  /** The films the list shows for a search query, in list order. */
  function FilterByTitle(films: seq<Film>, query: string): (r: seq<Film>)
    ensures forall f :: f in r ==> f in films && TitleMatches(f, query)
    ensures forall f :: f in films && TitleMatches(f, query) ==> f in r
  {
    if films == [] then []
    else
      assert films == [films[0]] + films[1..];
      if TitleMatches(films[0], query) then [films[0]] + FilterByTitle(films[1..], query)
      else FilterByTitle(films[1..], query)
  }

  /** The checkbox handler of the row showing (`id`, `viewed`): every film with that id
      gets the opposite of the flag the row showed; nothing else changes. */
  function ToggleViewed(films: seq<Film>, id: string, viewed: bool): (r: seq<Film>)
    ensures |r| == |films| && Ids(r) == Ids(films)
    ensures forall i :: 0 <= i < |films| && films[i].id != id ==> r[i] == films[i]
    ensures forall i :: 0 <= i < |films| && films[i].id == id ==>
              r[i].viewed == !viewed && r[i].(viewed := films[i].viewed) == films[i]
  {
    seq(|films|, i requires 0 <= i < |films| =>
      if films[i].id == id then films[i].(viewed := !viewed) else films[i])
  }

  /** The rating handler of the row showing `id`: every film with that id gets the
      reported rating; nothing else changes. */
  function SetRating(films: seq<Film>, id: string, rating: int): (r: seq<Film>)
    ensures |r| == |films| && Ids(r) == Ids(films)
    ensures forall i :: 0 <= i < |films| && films[i].id != id ==> r[i] == films[i]
    ensures forall i :: 0 <= i < |films| && films[i].id == id ==>
              r[i].rating == Some(rating) && r[i].(rating := films[i].rating) == films[i]
  {
    seq(|films|, i requires 0 <= i < |films| =>
      if films[i].id == id then films[i].(rating := Some(rating)) else films[i])
  }

  lemma FilterCons(head: Film, tail: seq<Film>, query: string)
    ensures FilterByTitle([head] + tail, query)
         == if TitleMatches(head, query) then [head] + FilterByTitle(tail, query) else FilterByTitle(tail, query)
  {
    assert ([head] + tail)[0] == head && ([head] + tail)[1..] == tail;
  }

  /** The search keeps every matching film as often as the list holds it, and no other film. */
  lemma {:induction false} FilterCounts(films: seq<Film>, query: string, f: Film)
    ensures multiset(FilterByTitle(films, query))[f] == if TitleMatches(f, query) then multiset(films)[f] else 0
  {
    if films != [] {
      var head, tail := films[0], films[1..];
      assert films == [head] + tail;
      FilterCons(head, tail, query);
      FilterCounts(tail, query, f);
    }
  }

  /** The search shows an order-preserving selection of the list. */
  lemma {:induction false} FilterIsSubsequence(films: seq<Film>, query: string)
    ensures IsSubsequence(FilterByTitle(films, query), films)
  {
    if films != [] {
      var r, rest := FilterByTitle(films, query), FilterByTitle(films[1..], query);
      FilterIsSubsequence(films[1..], query);
      if TitleMatches(films[0], query) {
        assert r == [films[0]] + rest;
        assert r[1..] == rest;
      } else {
        assert r == rest;
      }
    }
  }

  /** An empty search shows the whole list. */
  lemma {:induction false} FilterEmptyQuery(films: seq<Film>)
    ensures FilterByTitle(films, "") == films
  {
    if films != [] {
      assert TitleMatches(films[0], "");
      FilterEmptyQuery(films[1..]);
      assert films == [films[0]] + films[1..];
    }
  }

  /** The search ignores case: queries that lower-case alike show the same films. */
  lemma {:induction false} FilterIgnoresCase(films: seq<Film>, q1: string, q2: string)
    requires LowerCase(q1) == LowerCase(q2)
    ensures FilterByTitle(films, q1) == FilterByTitle(films, q2)
  {
    if films != [] {
      FilterIgnoresCase(films[1..], q1, q2);
    }
  }

  /** Clicking a row's checkbox, in a list without repeated ids, flips that film's flag and nothing else. */
  lemma ToggleClickedRow(films: seq<Film>, k: nat)
    requires Distinct(Ids(films)) && k < |films|
    ensures ToggleViewed(films, films[k].id, films[k].viewed)
         == films[k := films[k].(viewed := !films[k].viewed)]
  {
    var r := ToggleViewed(films, films[k].id, films[k].viewed);
    forall i | 0 <= i < |films| && i != k
      ensures r[i] == films[i]
    {
      assert Ids(films)[i] != Ids(films)[k];
    }
  }

  /** Clicking the same row twice, the second click seeing the first one's result, restores the list. */
  lemma ToggleTwice(films: seq<Film>, k: nat)
    requires Distinct(Ids(films)) && k < |films|
    ensures var once := ToggleViewed(films, films[k].id, films[k].viewed);
      ToggleViewed(once, once[k].id, once[k].viewed) == films
  {
    var once := ToggleViewed(films, films[k].id, films[k].viewed);
    ToggleClickedRow(films, k);
    assert Ids(once) == Ids(films);
    ToggleClickedRow(once, k);
  }

  /** Rating a row in a list without repeated ids changes that film's rating and nothing else. */
  lemma SetRatingRow(films: seq<Film>, k: nat, rating: int)
    requires Distinct(Ids(films)) && k < |films|
    ensures SetRating(films, films[k].id, rating) == films[k := films[k].(rating := Some(rating))]
  {
    var r := SetRating(films, films[k].id, rating);
    forall i | 0 <= i < |films| && i != k
      ensures r[i] == films[i]
    {
      assert Ids(films)[i] != Ids(films)[k];
    }
  }

  /** Only the latest rating of a film is kept. */
  lemma SetRatingLastWins(films: seq<Film>, id: string, first: int, second: int)
    ensures SetRating(SetRating(films, id, first), id, second) == SetRating(films, id, second)
  {
  }

  lemma ToggleAppend(a: seq<Film>, b: seq<Film>, id: string, viewed: bool)
    ensures ToggleViewed(a + b, id, viewed) == ToggleViewed(a, id, viewed) + ToggleViewed(b, id, viewed)
  {
  }

  lemma SetRatingAppend(a: seq<Film>, b: seq<Film>, id: string, rating: int)
    ensures SetRating(a + b, id, rating) == SetRating(a, id, rating) + SetRating(b, id, rating)
  {
  }

  /** Ticking a checkbox does not change which films the current search shows. */
  lemma {:induction false} FilterAfterToggle(films: seq<Film>, query: string, id: string, viewed: bool)
    ensures FilterByTitle(ToggleViewed(films, id, viewed), query)
         == ToggleViewed(FilterByTitle(films, query), id, viewed)
  {
    if films != [] {
      var head, tail := films[0], films[1..];
      assert films == [head] + tail;
      ToggleAppend([head], tail, id, viewed);
      var t := ToggleViewed([head], id, viewed);
      var rest := ToggleViewed(tail, id, viewed);
      assert t == [t[0]];
      assert ToggleViewed(films, id, viewed) == [t[0]] + rest;
      FilterCons(t[0], rest, query);
      FilterCons(head, tail, query);
      assert TitleMatches(t[0], query) == TitleMatches(head, query);
      FilterAfterToggle(tail, query, id, viewed);
      if TitleMatches(head, query) {
        ToggleAppend([head], FilterByTitle(tail, query), id, viewed);
      }
    }
  }

  /** Rating a film does not change which films the current search shows. */
  lemma {:induction false} FilterAfterRating(films: seq<Film>, query: string, id: string, rating: int)
    ensures FilterByTitle(SetRating(films, id, rating), query)
         == SetRating(FilterByTitle(films, query), id, rating)
  {
    if films != [] {
      var head, tail := films[0], films[1..];
      assert films == [head] + tail;
      SetRatingAppend([head], tail, id, rating);
      var t := SetRating([head], id, rating);
      var rest := SetRating(tail, id, rating);
      assert t == [t[0]];
      assert SetRating(films, id, rating) == [t[0]] + rest;
      FilterCons(t[0], rest, query);
      FilterCons(head, tail, query);
      assert TitleMatches(t[0], query) == TitleMatches(head, query);
      FilterAfterRating(tail, query, id, rating);
      if TitleMatches(head, query) {
        SetRatingAppend([head], FilterByTitle(tail, query), id, rating);
      }
    }
  }
}
