/**
 * The in-memory movie catalog: the record type, the entry-time validation
 * of a new record, and the rating update.
 */
module Store {
  import opened Options

  /** Capacity of the catalog (`MAX_FILMES`). */
  const MaxMovies: nat := 500
  /** Year of the first recorded film; an entered year must be strictly later. */
  const FirstFilmYear: int := 1888
  /** Latest year accepted on entry. */
  const CurrentYear: int := 2025
  /** Highest rating, in tenths (10.0). The lowest is 0. */
  const MaxRating: int := 100

  /** A rating held exactly, as a whole number of tenths. */
  type Tenths = int

  datatype Movie = Movie(
    id: int,
    title: string,
    director: string,
    year: int,
    genre: string,
    rating: Tenths)

  type Catalog = seq<Movie>

  datatype Rejection =
    | CatalogFull
    | IdNotPositive
    | IdInUse
    | YearOutOfRange
    | RatingOutOfRange
    | IdNotFound

  predicate ValidYear(year: int) {
    FirstFilmYear < year <= CurrentYear
  }

  predicate ValidRating(rating: Tenths) {
    0 <= rating <= MaxRating
  }

  /** The ranges every record entered through `Add` satisfies. */
  predicate InRange(m: Movie) {
    ValidYear(m.year) && ValidRating(m.rating)
  }

  predicate HasId(c: Catalog, id: int) {
    exists i :: 0 <= i < |c| && c[i].id == id
  }

  /** No two records share an id. */
  predicate UniqueIds(c: Catalog) {
    forall i, j :: 0 <= i < |c| && 0 <= j < |c| && c[i].id == c[j].id ==> i == j
  }

  /**
   * What holds of every catalog reached from an empty one through `Add`
   * and `UpdateRating`: within capacity, positive unique ids, ranges kept.
   */
  predicate Healthy(c: Catalog) {
    && |c| <= MaxMovies
    && UniqueIds(c)
    && forall i :: 0 <= i < |c| ==> c[i].id > 0 && InRange(c[i])
  }

  /** The linear scan for an id: the position of its first record. */
  function IndexOfId(c: Catalog, id: int): (r: Option<nat>)
    ensures r.Some? ==> r.value < |c| && c[r.value].id == id
    ensures r.Some? ==> forall j :: 0 <= j < r.value ==> c[j].id != id
    ensures r.None? <==> !HasId(c, id)
  {
    if |c| == 0 then None
    else if c[0].id == id then Some(0)
    else
      match IndexOfId(c[1..], id)
      case None => None
      case Some(k) => Some(k + 1)
  }

  /**
   * Adding a record, with the checks of the entry dialogue made on one
   * candidate instead of re-prompting: capacity first, then the id, the
   * year and the rating, in that order.
   */
  function Add(c: Catalog, m: Movie): (r: Result<Catalog, Rejection>)
    ensures r.Ok? <==> |c| < MaxMovies && m.id > 0 && !HasId(c, m.id) && InRange(m)
    ensures r.Ok? ==> |r.value| == |c| + 1 && r.value[..|c|] == c && r.value[|c|] == m
    ensures r == Err(CatalogFull) <==> |c| >= MaxMovies
    ensures r == Err(IdNotPositive) <==> |c| < MaxMovies && m.id <= 0
    ensures r == Err(IdInUse) <==> |c| < MaxMovies && m.id > 0 && HasId(c, m.id)
    ensures r == Err(YearOutOfRange) <==>
      |c| < MaxMovies && m.id > 0 && !HasId(c, m.id) && !ValidYear(m.year)
    ensures r == Err(RatingOutOfRange) <==>
      |c| < MaxMovies && m.id > 0 && !HasId(c, m.id) && ValidYear(m.year) && !ValidRating(m.rating)
    ensures r != Err(IdNotFound)
  {
    if |c| >= MaxMovies then Err(CatalogFull)
    else if m.id <= 0 then Err(IdNotPositive)
    else if IndexOfId(c, m.id).Some? then Err(IdInUse)
    else if !ValidYear(m.year) then Err(YearOutOfRange)
    else if !ValidRating(m.rating) then Err(RatingOutOfRange)
    else Ok(c + [m])
  }

  /**
   * Setting the rating of the record with the given id. An unknown id is
   * reported before the rating is looked at.
   */
  function UpdateRating(c: Catalog, id: int, rating: Tenths): (r: Result<Catalog, Rejection>)
    ensures r == Err(IdNotFound) <==> !HasId(c, id)
    ensures r == Err(RatingOutOfRange) <==> HasId(c, id) && !ValidRating(rating)
    ensures r.Ok? <==> HasId(c, id) && ValidRating(rating)
    ensures r.Ok? ==> exists k ::
      && 0 <= k < |c| && c[k].id == id
      && (forall j :: 0 <= j < k ==> c[j].id != id)
      && r.value == c[k := c[k].(rating := rating)]
  {
    match IndexOfId(c, id)
    case None => Err(IdNotFound)
    case Some(k) =>
      if !ValidRating(rating) then Err(RatingOutOfRange)
      else Ok(c[k := c[k].(rating := rating)])
  }

  /** An accepted add keeps ids unique. */
  lemma AddKeepsIdsUnique(c: Catalog, m: Movie)
    requires UniqueIds(c)
    requires Add(c, m).Ok?
    ensures UniqueIds(Add(c, m).value)
  {
  }

  /** An accepted add keeps the catalog healthy. */
  lemma AddKeepsHealthy(c: Catalog, m: Movie)
    requires Healthy(c)
    requires Add(c, m).Ok?
    ensures Healthy(Add(c, m).value)
  {
    AddKeepsIdsUnique(c, m);
    var c' := Add(c, m).value;
    forall i | 0 <= i < |c'|
      ensures c'[i].id > 0 && InRange(c'[i])
    {
      if i < |c| {
        assert c'[i] == c[i];
      }
    }
  }

  /** An update changes neither the ids nor any field other than the rating. */
  lemma UpdateKeepsIds(c: Catalog, id: int, rating: Tenths)
    requires UpdateRating(c, id, rating).Ok?
    ensures var c' := UpdateRating(c, id, rating).value;
      && |c'| == |c|
      && forall i :: 0 <= i < |c| ==>
        c'[i].(rating := c[i].rating) == c[i]
  {
  }

  /** An accepted update keeps the catalog healthy. */
  lemma UpdateKeepsHealthy(c: Catalog, id: int, rating: Tenths)
    requires Healthy(c)
    requires UpdateRating(c, id, rating).Ok?
    ensures Healthy(UpdateRating(c, id, rating).value)
  {
    var c' := UpdateRating(c, id, rating).value;
    assert forall i :: 0 <= i < |c| ==> c'[i].id == c[i].id;
  }

  /** With unique ids, the record found by id after an update carries the new rating. */
  lemma UpdateThenLookup(c: Catalog, id: int, rating: Tenths)
    requires UniqueIds(c)
    requires UpdateRating(c, id, rating).Ok?
    ensures var c' := UpdateRating(c, id, rating).value;
      forall i :: 0 <= i < |c'| && c'[i].id == id ==> c'[i] == c[i].(rating := rating)
  {
  }

  /** A valid record is accepted into an empty catalog; adding it again is refused as a duplicate id. */
  lemma DuplicateAddRefused(m: Movie)
    requires m.id > 0 && InRange(m)
    ensures Add([], m) == Ok([m])
    ensures Add([m], m) == Err(IdInUse)
  {
    assert HasId([m], m.id) by {
      assert [m][0].id == m.id;
    }
  }
}
