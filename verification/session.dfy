/**
 * A run of the program as a sequence of catalog commands: the catalog in
 * memory and the text of the catalog file, from loading at start-up to
 * saving at exit. Every accepted change is saved at once; listing sorts
 * the catalog in memory without saving; leaving the program saves.
 */
module Session {
  import opened Options
  import opened Store
  import opened Listing
  import opened Csv

  /** The menu choices that can change the catalog or the file. */
  datatype Command =
    | AddMovie(m: Movie)
    | SetRating(id: int, rating: Tenths)
    | ListAll
    | Quit

  datatype State = State(catalog: Catalog, file: string)

  /** Start-up: the catalog is whatever the file loads as. A missing file reads as empty text. */
  function Start(file: string): (s: State)
    ensures s.file == file && s.catalog == Load(file)
  {
    State(Load(file), file)
  }

  function Step(s: State, cmd: Command): (r: State)
    ensures cmd.AddMovie? && Add(s.catalog, cmd.m).Err? ==> r == s
    ensures cmd.AddMovie? && Add(s.catalog, cmd.m).Ok? ==>
      r.catalog == s.catalog + [cmd.m] && r.file == SaveText(r.catalog)
    ensures cmd.SetRating? && !HasId(s.catalog, cmd.id) ==> r == s
    ensures cmd.SetRating? && !ValidRating(cmd.rating) ==> r == s
    ensures cmd.SetRating? && UpdateRating(s.catalog, cmd.id, cmd.rating).Ok? ==>
      r.catalog == UpdateRating(s.catalog, cmd.id, cmd.rating).value && r.file == SaveText(r.catalog)
    ensures cmd.ListAll? ==>
      r.file == s.file && multiset(r.catalog) == multiset(s.catalog) && Sorted(r.catalog)
    ensures cmd.Quit? ==> r.catalog == s.catalog && r.file == SaveText(s.catalog)
  {
    match cmd
    case AddMovie(m) =>
      (match Add(s.catalog, m)
       case Ok(c) => State(c, SaveText(c))
       case Err(_) => s)
    case SetRating(id, rating) =>
      (match UpdateRating(s.catalog, id, rating)
       case Ok(c) => State(c, SaveText(c))
       case Err(_) => s)
    case ListAll => State(ListMovies(s.catalog), s.file)
    case Quit => State(s.catalog, SaveText(s.catalog))
  }

  /**
   * The menu loop: commands are carried out in order until the first
   * `Quit`, which saves and ends the loop; commands after it are never read.
   */
  function Run(s: State, cmds: seq<Command>): (r: State)
    ensures Quit in cmds ==> r.file == SaveText(r.catalog)
    decreases |cmds|
  {
    if |cmds| == 0 then s
    else if cmds[0].Quit? then Step(s, Quit)
    else
      assert Quit in cmds ==> Quit in cmds[1..] by {
        if Quit in cmds {
          var i :| 0 <= i < |cmds| && cmds[i] == Quit;
          assert cmds[1..][i - 1] == Quit;
        }
      }
      Run(Step(s, cmds[0]), cmds[1..])
  }

  /** Nothing typed after leaving has any effect. */
  lemma {:induction false} RunStopsAtQuit(s: State, before: seq<Command>, after: seq<Command>)
    requires Quit !in before
    ensures Run(s, before + [Quit] + after) == Run(s, before + [Quit])
    decreases |before|
  {
    if |before| == 0 {
      assert (before + [Quit] + after)[0] == Quit;
      assert (before + [Quit])[0] == Quit;
    } else {
      assert (before + [Quit] + after)[0] == before[0];
      assert (before + [Quit] + after)[1..] == before[1..] + [Quit] + after;
      assert (before + [Quit])[1..] == before[1..] + [Quit];
      RunStopsAtQuit(Step(s, before[0]), before[1..], after);
    }
  }

  /** Every record offered through the add command carries text the file format keeps. */
  predicate AddsStorable(cmds: seq<Command>) {
    forall i :: 0 <= i < |cmds| && cmds[i].AddMovie? ==> Storable(cmds[i].m)
  }

  /**
   * The file and the catalog hold the same records, possibly in another
   * order (a listing reorders the catalog but does not save it).
   */
  predicate Tracks(s: State) {
    && |s.catalog| <= MaxMovies
    && AllStorable(s.catalog)
    && multiset(Load(s.file)) == multiset(s.catalog)
  }

  lemma StartTracks(file: string)
    ensures Tracks(Start(file))
  {
    LoadedIsStorable(file);
  }

  lemma PermutationKeepsStorable(a: Catalog, b: Catalog)
    requires AllStorable(a)
    requires multiset(a) == multiset(b)
    ensures AllStorable(b)
  {
    forall i | 0 <= i < |b|
      ensures Storable(b[i])
    {
      assert b[i] in multiset(a);
    }
  }

  lemma StepTracks(s: State, cmd: Command)
    requires Tracks(s)
    requires cmd.AddMovie? ==> Storable(cmd.m)
    ensures Tracks(Step(s, cmd))
  {
    match cmd
    case AddMovie(m) => AddTracks(s, m);
    case SetRating(id, rating) => RatingTracks(s, id, rating);
    case ListAll =>
      PermutationKeepsStorable(s.catalog, ListMovies(s.catalog));
    case Quit =>
      SavedTracks(Step(s, cmd));
  }

  lemma AddTracks(s: State, m: Movie)
    requires Tracks(s) && Storable(m)
    ensures Tracks(Step(s, AddMovie(m)))
  {
    var r := Step(s, AddMovie(m));
    if Add(s.catalog, m).Ok? {
      assert AllStorable(r.catalog) by {
        assert r.catalog == s.catalog + [m];
      }
      SavedTracks(r);
    }
  }

  lemma RatingTracks(s: State, id: int, rating: Tenths)
    requires Tracks(s)
    ensures Tracks(Step(s, SetRating(id, rating)))
  {
    var r := Step(s, SetRating(id, rating));
    if UpdateRating(s.catalog, id, rating).Ok? {
      UpdateKeepsIds(s.catalog, id, rating);
      assert AllStorable(r.catalog) by {
        forall i | 0 <= i < |r.catalog|
          ensures Storable(r.catalog[i])
        {
          assert Storable(s.catalog[i]);
        }
      }
      SavedTracks(r);
    }
  }

  /** A state whose file was just saved from its catalog tracks it. */
  lemma SavedTracks(s: State)
    requires |s.catalog| <= MaxMovies && AllStorable(s.catalog)
    requires s.file == SaveText(s.catalog)
    ensures Tracks(s)
  {
    LoadSave(s.catalog);
  }

  /** Through any run, the file keeps holding exactly the catalog's records. */
  lemma {:induction false} RunTracks(s: State, cmds: seq<Command>)
    requires Tracks(s)
    requires AddsStorable(cmds)
    ensures Tracks(Run(s, cmds))
    decreases |cmds|
  {
    if |cmds| > 0 {
      StepTracks(s, cmds[0]);
      RunTracks(Step(s, cmds[0]), cmds[1..]);
    }
  }

  /** After leaving the program, loading the file again gives the catalog exactly, in its order. */
  lemma QuitReloads(s: State)
    requires Tracks(s)
    ensures Load(Step(s, Quit).file) == s.catalog
  {
    LoadSave(s.catalog);
  }

  lemma StepKeepsHealthy(s: State, cmd: Command)
    requires Healthy(s.catalog)
    ensures Healthy(Step(s, cmd).catalog)
  {
    match cmd
    case AddMovie(m) =>
      if Add(s.catalog, m).Ok? {
        AddKeepsHealthy(s.catalog, m);
      }
    case SetRating(id, rating) =>
      if UpdateRating(s.catalog, id, rating).Ok? {
        UpdateKeepsHealthy(s.catalog, id, rating);
      }
    case ListAll =>
      ListingKeepsHealthy(s.catalog);
    case Quit =>
  }

  /**
   * From a healthy catalog (in particular an empty one), every reachable
   * catalog is healthy: within capacity, ids positive and unique, years and
   * ratings in range. Loading does not check ids, so a loaded catalog must
   * be healthy to begin with.
   */
  lemma {:induction false} RunKeepsHealthy(s: State, cmds: seq<Command>)
    requires Healthy(s.catalog)
    ensures Healthy(Run(s, cmds).catalog)
    decreases |cmds|
  {
    if |cmds| > 0 {
      StepKeepsHealthy(s, cmds[0]);
      RunKeepsHealthy(Step(s, cmds[0]), cmds[1..]);
    }
  }

  /**
   * A record with an empty title is accepted by the add command, but its
   * saved line does not parse, so the record is gone after the next load.
   */
  lemma EmptyTitleLostOnReload(m: Movie)
    requires m.id > 0 && InRange(m) && m.title == ""
    requires '\n' !in m.director && '\n' !in m.genre
    ensures Step(State([], ""), AddMovie(m)).catalog == [m]
    ensures Load(Step(State([], ""), AddMovie(m)).file) == []
  {
    EmptyTitleLineRejected(m);
    LoadSaveUnparsable(m);
  }

  /**
   * Loading does not look at ids: a file with two lines for the same
   * record loads as a catalog that repeats the id.
   */
  lemma LoadAdmitsRepeatedIds(m: Movie)
    requires Storable(m)
    ensures Load(SaveText([m, m])) == [m, m]
    ensures !UniqueIds(Load(SaveText([m, m])))
  {
    LoadSave([m, m]);
    var c := [m, m];
    assert c[0].id == c[1].id;
  }
}
