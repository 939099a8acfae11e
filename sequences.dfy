/** Sequence facts the merge and the filter are stated with: distinctness,
    de-duplication that keeps first occurrences, removal of the elements of
    another sequence, and the subsequence relation. */
module Sequences {

  predicate Distinct<T(==)>(s: seq<T>)
  {
    forall i, j :: 0 <= i < j < |s| ==> s[i] != s[j]
  }

  /** The elements of `s`, each once, in the order of their first occurrence. */
  function Dedup<T(==, !new)>(s: seq<T>): seq<T>
  {
    if s == [] then []
    else
      var p, x := s[..|s| - 1], s[|s| - 1];
      assert s == p + [x];
      if x in p then Dedup(p) else Dedup(p) + [x]
  }

  /** The elements of `s` that do not occur in `a`, in their order in `s`. */
  function Without<T(==, !new)>(s: seq<T>, a: seq<T>): seq<T>
  {
    if s == [] then []
    else
      var p, x := s[..|s| - 1], s[|s| - 1];
      assert s == p + [x];
      if x in a then Without(p, a) else Without(p, a) + [x]
  }

  /** `r` is `s` with some elements deleted and the rest in their original order. */
  ghost predicate IsSubsequence<T>(r: seq<T>, s: seq<T>)
  {
    r == [] || (s != [] && ((r[0] == s[0] && IsSubsequence(r[1..], s[1..])) || IsSubsequence(r, s[1..])))
  }

  lemma DedupSnoc<T(!new)>(s: seq<T>, x: T)
    ensures Dedup(s + [x]) == if x in s then Dedup(s) else Dedup(s) + [x]
  {
    assert (s + [x])[..|s|] == s;
  }

  lemma WithoutSnoc<T(!new)>(s: seq<T>, x: T, a: seq<T>)
    ensures Without(s + [x], a) == if x in a then Without(s, a) else Without(s, a) + [x]
  {
    assert (s + [x])[..|s|] == s;
  }

  /** De-duplication keeps exactly the elements of the sequence. */
  lemma {:induction false} DedupMembers<T(!new)>(s: seq<T>)
    ensures forall x :: x in Dedup(s) <==> x in s
  {
    if s != [] {
      var p, y := s[..|s| - 1], s[|s| - 1];
      assert s == p + [y];
      DedupSnoc(p, y);
      DedupMembers(p);
    }
  }

  /** De-duplication leaves no element twice. */
  lemma {:induction false} DedupDistinct<T(!new)>(s: seq<T>)
    ensures Distinct(Dedup(s))
  {
    if s != [] {
      var p, y := s[..|s| - 1], s[|s| - 1];
      assert s == p + [y];
      DedupSnoc(p, y);
      DedupDistinct(p);
      DedupMembers(p);
    }
  }

  lemma AppendRegroup<T>(whole: seq<T>, front: seq<T>, left: seq<T>, right: seq<T>, right': seq<T>, x: T)
    requires whole == front + [x] && front == left + right && right' == right + [x]
    ensures whole == left + right'
  {
  }

  /** A sequence without repetitions is its own de-duplication. */
  lemma {:induction false} DedupOfDistinct<T(!new)>(s: seq<T>)
    requires Distinct(s)
    ensures Dedup(s) == s
  {
    if s != [] {
      var p, x := s[..|s| - 1], s[|s| - 1];
      assert s == p + [x];
      DedupOfDistinct(p);
      DedupSnoc(p, x);
    }
  }

  lemma {:induction false} WithoutAppend<T(!new)>(s: seq<T>, t: seq<T>, a: seq<T>)
    ensures Without(s + t, a) == Without(s, a) + Without(t, a)
  {
    if t == [] {
      assert s + t == s;
    } else {
      var p, x := t[..|t| - 1], t[|t| - 1];
      assert t == p + [x];
      assert s + t == (s + p) + [x];
      WithoutAppend(s, p, a);
      WithoutSnoc(s + p, x, a);
      WithoutSnoc(p, x, a);
    }
  }

  lemma {:induction false} WithoutMembers<T(!new)>(s: seq<T>, a: seq<T>, x: T)
    ensures x in Without(s, a) <==> x in s && x !in a
  {
    if s != [] {
      var p, y := s[..|s| - 1], s[|s| - 1];
      assert s == p + [y];
      WithoutSnoc(p, y, a);
      WithoutMembers(p, a, x);
    }
  }

  lemma WithoutDisjoint<T(!new)>(s: seq<T>, a: seq<T>)
    requires forall x :: x in s ==> x !in a
    ensures Without(s, a) == s
  {
    if s != [] {
      var p, x := s[..|s| - 1], s[|s| - 1];
      assert s == p + [x];
      WithoutDisjoint(p, a);
    }
  }

  lemma WithoutCovered<T(!new)>(s: seq<T>, a: seq<T>)
    requires forall x :: x in s ==> x in a
    ensures Without(s, a) == []
  {
    if s != [] {
      var p, y := s[..|s| - 1], s[|s| - 1];
      assert s == p + [y];
      WithoutSnoc(p, y, a);
      WithoutCovered(p, a);
    }
  }

  /** De-duplicating a concatenation keeps the first part's order and appends the
      second part's new elements in their own first-occurrence order. */
  lemma {:induction false} DedupAppend<T(!new)>(a: seq<T>, b: seq<T>)
    ensures Dedup(a + b) == Dedup(a) + Dedup(Without(b, a))
  {
    if b == [] {
      assert a + b == a;
    } else {
      var p, x := b[..|b| - 1], b[|b| - 1];
      var q, rest := a + p, Without(p, a);
      assert b == p + [x];
      assert a + b == q + [x];
      DedupAppend(a, p);
      DedupSnoc(q, x);
      WithoutSnoc(p, x, a);
      WithoutMembers(p, a, x);
      DedupSnoc(rest, x);
      if x !in q {
        AppendRegroup(Dedup(a + b), Dedup(q), Dedup(a), Dedup(rest), Dedup(Without(b, a)), x);
      }
    }
  }

  /** Putting `a` in front of an already merged `a + b` and merging again changes nothing. */
  lemma DedupAbsorbs<T(!new)>(a: seq<T>, b: seq<T>)
    ensures Dedup(a + Dedup(a + b)) == Dedup(a + b)
  {
    var d := Dedup(a + b);
    var rest := Dedup(Without(b, a));
    DedupMembers(a);
    DedupMembers(Without(b, a));
    DedupDistinct(Without(b, a));
    DedupAppend(a, b);
    assert d == Dedup(a) + rest;
    DedupAppend(a, d);
    WithoutAppend(Dedup(a), rest, a);
    WithoutCovered(Dedup(a), a);
    forall y | y in rest
      ensures y !in a
    {
      WithoutMembers(b, a, y);
    }
    WithoutDisjoint(rest, a);
    assert Without(d, a) == rest;
    DedupOfDistinct(rest);
    assert Dedup(a + d) == Dedup(a) + rest;
  }
}
