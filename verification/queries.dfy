/**
 * The two read-only queries over the catalog: search by director
 * (substring, case-sensitive) and filter by genre (whole field, ignoring
 * ASCII case). Both report matches in catalog order.
 */
module Queries {
  import opened Strings
  import opened Store

  /** `a` can be obtained from `b` by deleting elements, keeping the order. */
  predicate Subsequence(a: Catalog, b: Catalog)
    decreases |b|
  {
    || |a| == 0
    || (&& |b| > 0
        && ((a[0] == b[0] && Subsequence(a[1..], b[1..])) || Subsequence(a, b[1..])))
  }

  /** The scan shared by both queries: the records `keep` accepts, in catalog order. */
  function Select(c: Catalog, keep: Movie -> bool): (r: Catalog)
    ensures Subsequence(r, c)
    ensures forall i :: 0 <= i < |r| ==> keep(r[i])
    ensures forall x :: multiset(r)[x] == if keep(x) then multiset(c)[x] else 0
  {
    if |c| == 0 then []
    else
      var rest := Select(c[1..], keep);
      assert c == [c[0]] + c[1..];
      if keep(c[0]) then
        assert ([c[0]] + rest)[1..] == rest;
        [c[0]] + rest
      else rest
  }

  /** A record matches a director search when the query occurs in its director. */
  predicate DirectorMatches(m: Movie, query: string) {
    Contains(m.director, query)
  }

  /** A record matches a genre filter when its whole genre equals the query, ignoring case. */
  predicate GenreMatches(m: Movie, query: string) {
    SameIgnoringCase(m.genre, query)
  }

  /** Search by director. An empty query occurs in every director and so matches everything. */
  function SearchByDirector(c: Catalog, query: string): (r: Catalog)
    ensures Subsequence(r, c)
    ensures forall x :: x in r <==> x in c && exists i :: OccursAt(x.director, query, i)
    ensures forall x :: multiset(r)[x] == if DirectorMatches(x, query) then multiset(c)[x] else 0
  {
    var r := Select(c, m => DirectorMatches(m, query));
    assert forall x :: x in r <==> multiset(r)[x] > 0;
    r
  }

  /** Filter by genre. */
  function FilterByGenre(c: Catalog, query: string): (r: Catalog)
    ensures Subsequence(r, c)
    ensures forall x :: multiset(r)[x] == if GenreMatches(x, query) then multiset(c)[x] else 0
  {
    Select(c, m => GenreMatches(m, query))
  }

  /**
   * The genre filter keeps exactly the records whose genre has the
   * query's length and agrees with it position by position up to case.
   */
  lemma FilterByGenreMeaning(c: Catalog, query: string)
    ensures forall x :: x in FilterByGenre(c, query) <==>
      && x in c
      && |x.genre| == |query|
      && forall i :: 0 <= i < |query| ==> Lower(x.genre[i]) == Lower(query[i])
  {
    var r := FilterByGenre(c, query);
    forall x
      ensures x in r <==>
        (x in c && |x.genre| == |query| &&
         forall i :: 0 <= i < |query| ==> Lower(x.genre[i]) == Lower(query[i]))
    {
      SameIgnoringCaseIff(x.genre, query);
      assert x in r <==> multiset(r)[x] > 0;
      assert x in c <==> multiset(c)[x] > 0;
    }
  }

  /** Genre matching ignores case but not the rest of the field. */
  lemma GenreExamples(m: Movie)
    ensures m.genre == "ACTION" ==> GenreMatches(m, "Action")
    ensures m.genre == "Action/Drama" ==> !GenreMatches(m, "Action")
  {
    SameIgnoringCaseIff(m.genre, "Action");
    if m.genre == "ACTION" {
      forall i | 0 <= i < 6
        ensures Lower(m.genre[i]) == Lower("Action"[i])
      {
        assert 'A' <= m.genre[i] <= 'Z';
      }
    }
  }

  /** Director search is case-sensitive and matches anywhere in the field. */
  lemma DirectorExamples(m: Movie)
    ensures m.director == "Ang Lee" ==> DirectorMatches(m, "Lee")
    ensures m.director == "Lee" ==> !DirectorMatches(m, "lee")
  {
    if m.director == "Ang Lee" {
      assert OccursAt(m.director, "Lee", 4);
    }
    if m.director == "Lee" {
      assert "Lee"[0..3][0] != "lee"[0];
    }
  }
}
