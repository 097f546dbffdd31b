# Personal movie catalog — Dafny model

This project models the core of a small command-line movie catalog written in C
(`ProgramaFilmes/main.c`). The catalog is an array of at most 500 movie
records. Each record has an id, a title, a director, a year, a genre and a
rating. At start-up the catalog is loaded from a comma-separated file. Every
accepted change is saved to that file at once, and the file is saved again when
the program exits.

The model is functional. A `Movie` is an immutable datatype and the catalog is a
`seq<Movie>`. Each operation of the program is a pure function:

- `Store.Add` adds a record after the entry checks;
- `Store.UpdateRating` changes the rating of the record with a given id;
- `Queries.SearchByDirector` is the director search (`strstr`);
- `Queries.FilterByGenre` is the genre filter (`strcasecmp`);
- `Listing.ListMovies` is the listing (`qsort` by year, then `strcmp` on the title);
- `Csv.SaveText` writes the file and `Csv.Load` reads it back.

`Session.Step` and `Session.Run` chain these operations the way the menu does:
changes are saved, listing only sorts the catalog in memory, and leaving saves
and ends the loop.

Modules, one per concern:

| file | module | what it holds |
|---|---|---|
| options.dfy | `Options` | `Option` and `Result` |
| decimal.dfy | `Decimal` | `%d`, `%.1f` writing and `%d`, `%f` reading |
| strings.dfy | `Strings` | `strstr`, `strcasecmp`, `strcmp` over `seq<char>` |
| store.dfy | `Store` | `Movie`, the constants, add, rating update, the health invariant |
| queries.dfy | `Queries` | director search and genre filter |
| listing.dfy | `Listing` | comparator, insertion sort, listing |
| csv.dfy | `Csv` | line format and parse, lines of a file, save and load |
| session.dfy | `Session` | a run of commands over catalog and file |

Modelling choices:

- Ratings are exact whole numbers of tenths (`Tenths`). The valid range 0.0–10.0
  is 0–100, and `%.1f` writes a tenths value exactly.
- Interactive re-prompting becomes one call that accepts or refuses a single
  candidate. The refusal names the check that failed, in the order the C code
  makes the checks. `Add` checks capacity, then a non-positive id, then an id
  already in use, then the year, then the rating. `UpdateRating` reports an
  unknown id before it looks at the rating.
- A file is its text. A missing file is modelled as empty text, which loads as
  an empty catalog, the same as the C code's "start empty".
- `Csv.Lines` splits the text the way successive `fgets` calls do, without the
  line breaks. Removing the break cannot change a six-field parse, because the
  genre is always followed by a comma.
- `Csv.ParseLine` follows `sscanf(line, "%d,%[^,],%[^,],%d,%[^,],%f")` returning 6:
  - `%d` skips white space, then reads an optional sign and a non-empty digit run;
  - `%[^,]` is a non-empty run of characters other than a comma;
  - `%f` skips white space, then reads an optional sign, digits, and an
    optional point with more digits, with at least one digit in all;
  - anything after the rating is ignored, as `sscanf` ignores it.
- Characters are Unicode code points. The C program compares bytes. UTF-8
  preserves code-point order, so `Strings.Below` over code points orders titles
  as `strcmp` over their UTF-8 bytes does. `Strings.Lower` folds only `A`–`Z`,
  as `tolower` does in the C locale.

Behaviour of the code worth noting:

- The listing sorts the live catalog in place, so the sorted order replaces the
  stored order. The listing does not save. The file keeps its old order until
  the next save.
- A line with text after the rating is still loaded.
- The highest year accepted is the constant 2025.

## Model

| member | source | states |
|---|---|---|
| `Decimal.ReadIntOfFormat` | ProgramaFilmes/main.c:158-164 | reading `%d` from the text that `%d` wrote, followed by any non-digit text, gives back the same integer and exactly that following text |
| `Decimal.ReadTenthsOfFormat` | ProgramaFilmes/main.c:158-164 | reading `%f` from the text that `%.1f` wrote gives back the same rating in tenths, whatever text follows |
| `Decimal.DigitsValueOfNatToString` | ProgramaFilmes/main.c:158 | the decimal digits written for a natural number denote that number |
| `Strings.StrStr` | ProgramaFilmes/main.c:251 | the result is the first position where the query occurs; it is absent exactly when the query occurs nowhere |
| `Strings.Contains` | ProgramaFilmes/main.c:251 | true exactly when the query occurs as a contiguous, case-sensitive piece of the text |
| `Strings.SameIgnoringCaseIff` | ProgramaFilmes/main.c:272 | the case-insensitive comparison holds exactly when both strings have the same length and agree at every position once `A`–`Z` are folded |
| `Strings.BelowIff` | ProgramaFilmes/main.c:326 | `strcmp(a, b) < 0` exactly when `a` is a proper prefix of `b`, or `a` has the smaller character at the first position where they differ |
| `Strings.BelowTotal` | ProgramaFilmes/main.c:326 | of two different titles, one is ordered before the other |
| `Strings.BelowTransitive` | ProgramaFilmes/main.c:326 | title order is transitive |
| `Strings.BelowAsymmetric` | ProgramaFilmes/main.c:326 | no two titles are each ordered before the other |
| `Strings.BelowIrreflexive` | ProgramaFilmes/main.c:326 | no title is ordered before itself |
| `Store.IndexOfId` | ProgramaFilmes/main.c:194-199 | the scan finds the first record with the id, no earlier record has it, and it finds nothing exactly when no record has the id |
| `Store.Add` | ProgramaFilmes/main.c:171-236 | a candidate is accepted exactly when the catalog holds fewer than 500 records, the id is positive and unused, 1888 < year ≤ 2025 and 0 ≤ rating ≤ 10.0; on acceptance the count grows by one, earlier records are unchanged and the candidate is last; each refusal names the first failed check |
| `Store.AddKeepsIdsUnique` | ProgramaFilmes/main.c:186-206 | if ids are unique before an accepted add, they are unique after it |
| `Store.AddKeepsHealthy` | ProgramaFilmes/main.c:172-236 | an accepted add keeps the catalog within capacity, with positive unique ids and every year and rating in range |
| `Store.DuplicateAddRefused` | ProgramaFilmes/main.c:193-202 | a valid record is accepted into an empty catalog, and adding it a second time is refused as an id in use |
| `Store.UpdateRating` | ProgramaFilmes/main.c:290-315 | an unknown id is refused as not found; a known id with an out-of-range rating is refused; otherwise only the rating of the first record with that id changes, and the length and every other record stay the same |
| `Store.UpdateKeepsIds` | ProgramaFilmes/main.c:301 | an accepted update keeps the length and every field of every record other than the rating |
| `Store.UpdateKeepsHealthy` | ProgramaFilmes/main.c:296-308 | an accepted update keeps the catalog healthy |
| `Store.UpdateThenLookup` | ProgramaFilmes/main.c:291-301 | with unique ids, after an update the record with that id is the old record with the new rating |
| `Queries.Select` | ProgramaFilmes/main.c:248-257 | the scan's result is a subsequence of the catalog, each kept record passes the test, and each record that passes keeps its full multiplicity |
| `Queries.SearchByDirector` | ProgramaFilmes/main.c:248-257 | the result keeps catalog order and holds exactly the records whose director contains the query, as often as the catalog holds them |
| `Queries.FilterByGenre` | ProgramaFilmes/main.c:270-278 | the result keeps catalog order and holds exactly the records whose genre equals the query ignoring case, as often as the catalog holds them |
| `Queries.FilterByGenreMeaning` | ProgramaFilmes/main.c:270-278 | a record is in the genre filter's result exactly when it is in the catalog and its whole genre equals the query position by position up to case |
| `Queries.GenreExamples` | ProgramaFilmes/main.c:272 | genre "ACTION" matches the query "Action"; genre "Action/Drama" does not |
| `Queries.DirectorExamples` | ProgramaFilmes/main.c:251 | director "Ang Lee" matches the query "Lee"; director "Lee" does not match "lee" |
| `Listing.InOrderTotal` | ProgramaFilmes/main.c:319-327 | the comparator relates any two records in at least one direction |
| `Listing.InOrderTransitive` | ProgramaFilmes/main.c:319-327 | the comparator's order is transitive |
| `Listing.StrictlyBeforeIff` | ProgramaFilmes/main.c:319-327 | a negative comparator result for (a, b) is the same as a positive one for (b, a) |
| `Listing.Insert` | ProgramaFilmes/main.c:339 | inserting into a sorted catalog gives a sorted catalog with exactly one more copy of the record |
| `Listing.Sort` | ProgramaFilmes/main.c:339 | the result is sorted by year and then title, and is a permutation of the input |
| `Listing.ListMovies` | ProgramaFilmes/main.c:330-339 | the stored catalog after listing has the same length and the same records with the same multiplicities, in year-then-title order |
| `Listing.SortedKeyOrder` | ProgramaFilmes/main.c:319-327 | in a listing, a record with a smaller year, or the same year and a smaller title, always comes first |
| `Listing.UniqueIdsOccurOnce` | ProgramaFilmes/main.c:186-206 | a catalog with unique ids holds each record at most once |
| `Listing.PermutationKeepsHealthy` | ProgramaFilmes/main.c:339 | any rearrangement of a healthy catalog is healthy |
| `Listing.ListingKeepsHealthy` | ProgramaFilmes/main.c:338-339 | listing keeps the catalog healthy |
| `Listing.SortedPermutationsAgreeOnKeys` | ProgramaFilmes/main.c:339 | any two sorted rearrangements of one catalog have the same year and title at every position |
| `Listing.ListingDeterminedUpToTies` | ProgramaFilmes/main.c:319-339 | whatever order `qsort` leaves tied records in, its result agrees with the model's listing on year and title at every position |
| `Csv.ReadText` | ProgramaFilmes/main.c:127 | a text conversion yields a non-empty, comma-free field, and the field followed by the rest is the input; the rest is empty or starts with the comma, so the field is the whole run before the first comma; the conversion fails exactly on empty text or text that starts with a comma |
| `Csv.TextField` | ProgramaFilmes/main.c:127 | a text field and its separating comma split the input into the field, a comma and the rest |
| `Csv.IntField` | ProgramaFilmes/main.c:127 | an integer field and its comma consume at least one character and leave a suffix of the input; when it succeeds, `%d` read its number and stopped right at the comma |
| `Csv.IntFieldIff` | ProgramaFilmes/main.c:127 | an integer field yields `v` and leaves `rest` exactly when the text is something `%d` reads completely as `v`, then a comma, then `rest` |
| `Csv.ParseLine` | ProgramaFilmes/main.c:127-135 | a parsed record's title, director and genre are non-empty and contain no comma |
| `Csv.ParseLineIff` | ProgramaFilmes/main.c:127-135 | a line parses as record `m` exactly when it is six comma-separated texts: `%d` reads the first and fourth completely as the id and the year, the second, third and fifth are the title, director and genre (non-empty, comma-free), and `%f` reads the rating at the start of the sixth |
| `Decimal.ReadIntIff` | ProgramaFilmes/main.c:127 | `%d` reads `v` and leaves `rest` exactly when the text is white space, an optional sign and a digit run whose signed value is `v`, followed by `rest`, which does not start with a digit |
| `Decimal.ReadTenthsIff` | ProgramaFilmes/main.c:127 | `%f` reads `v` tenths exactly when the text is white space, an optional sign, a digit run and optionally a point and digits, with at least one digit, and `v` is their signed value to one decimal place |
| `Csv.FormatLine` | ProgramaFilmes/main.c:158-164 | a record whose text fields hold no line break is written as text with no line break |
| `Csv.ParseFormatLine` | ProgramaFilmes/main.c:127-164 | parsing the saved line of a record with non-empty, comma-free text fields gives back the same record |
| `Csv.ParsedIsStorable` | ProgramaFilmes/main.c:127-133 | a record parsed from one line has non-empty text fields with no comma and no line break |
| `Csv.Lines` | ProgramaFilmes/main.c:102-104 | no line read from a file contains a line break |
| `Csv.LinesOfCons` | ProgramaFilmes/main.c:104 | a line followed by a line break is read as that line, then the lines of the rest |
| `Csv.LinesOfJoin` | ProgramaFilmes/main.c:104 | reading the lines of a file written line by line gives back those lines |
| `Csv.Body` | ProgramaFilmes/main.c:155-165 | when no text field holds a line break, the lines of the saved body are the records' formatted lines, one per record, in catalog order |
| `Csv.SaveText` | ProgramaFilmes/main.c:147-165 | when no text field holds a line break, the lines of the saved file are the header and then each record's formatted line, in catalog order |
| `Csv.LoadLines` | ProgramaFilmes/main.c:104-141 | reading lines only appends to the records already read, adds at most one record per line, and never takes the catalog past 500 |
| `Csv.Load` | ProgramaFilmes/main.c:82-144 | a load never yields more than 500 records |
| `Csv.LoadLinesTakesParsed` | ProgramaFilmes/main.c:104-141 | loading keeps, in file order, the first records that the lines yield, as many as fit under 500 |
| `Csv.LoadIsParsedPrefix` | ProgramaFilmes/main.c:101-141 | a load skips the header and returns the first 500 records that the remaining lines yield |
| `Csv.LoadedIsStorable` | ProgramaFilmes/main.c:104-141 | a loaded catalog holds at most 500 records, each with non-empty text fields that contain no comma and no line break |
| `Csv.LoadSave` | ProgramaFilmes/main.c:147-165 | loading a saved catalog gives it back, when it holds at most 500 records with non-empty text fields free of commas and line breaks |
| `Csv.LoadSaveLoad` | ProgramaFilmes/main.c:82-165 | for any file, saving what was loaded and loading again gives the same catalog |
| `Csv.MalformedLineSkipped` | ProgramaFilmes/main.c:135-140 | a line that does not parse contributes nothing, wherever it stands |
| `Csv.LoadTwoGoodOneBad` | ProgramaFilmes/main.c:102-141 | a header, two good lines and one malformed line load as exactly the two records |
| `Csv.EmptyTitleLineRejected` | ProgramaFilmes/main.c:127-135 | the saved line of a record with an empty title does not parse |
| `Csv.LoadSaveUnparsable` | ProgramaFilmes/main.c:135-165 | a saved one-record catalog whose line does not parse loads as empty |
| `Session.Step` | ProgramaFilmes/main.c:52-75 | a refused add, an update of an unknown id or with an out-of-range rating leaves catalog and file alone; an accepted add appends and saves; an accepted rating update changes the catalog as `UpdateRating` does and saves it; listing sorts the catalog without touching the file; leaving saves the catalog |
| `Session.Run` | ProgramaFilmes/main.c:42-75 | once the run reaches a leave command, the file holds exactly the saved text of the final catalog |
| `Session.RunStopsAtQuit` | ProgramaFilmes/main.c:68-75 | the loop ends at the first leave command: commands after it have no effect |
| `Session.StartTracks` | ProgramaFilmes/main.c:82-144 | right after start-up, the file and the catalog hold the same records |
| `Session.StepTracks` | ProgramaFilmes/main.c:52-75 | from a state whose catalog tracks the file (within capacity, every record's text storable: non-empty, no comma, no line break), each command whose added record, if any, has storable text keeps the file and the catalog holding the same records |
| `Session.RunTracks` | ProgramaFilmes/main.c:38-79 | through any run whose added records have storable text, the file keeps holding exactly the catalog's records |
| `Session.QuitReloads` | ProgramaFilmes/main.c:68-71 | when the catalog tracks the file (within capacity, every record's text storable), after leaving, loading the file gives exactly the catalog, in its order; a record with an empty title breaks this, as `Session.EmptyTitleLostOnReload` shows |
| `Session.StepKeepsHealthy` | ProgramaFilmes/main.c:52-75 | every command keeps a healthy catalog healthy |
| `Session.RunKeepsHealthy` | ProgramaFilmes/main.c:38-79 | from a healthy catalog, for example an empty one, every reachable catalog is healthy: within capacity, ids positive and unique, years and ratings in range |
| `Session.EmptyTitleLostOnReload` | ProgramaFilmes/main.c:208 | a record with an empty title is accepted by add, but the saved file then loads without it |
| `Session.LoadAdmitsRepeatedIds` | ProgramaFilmes/main.c:127-136 | loading does not check ids: a file with the same record twice loads as a catalog that repeats an id |

## Left out

- The console readers `lerInteiro`, `lerFloat` and `lerString`, the menu loop's prompting and all printed messages are console I/O. The loop's dispatch is modelled by `Session.Step` and `Session.Run`. The readers' re-prompting becomes one call that accepts or refuses a candidate.
- Session.Step: its listing command sorts by insertion, which keeps records with equal year and title in their catalog order. `qsort` leaves the order of such ties unspecified, so the model fixes one of the orders the program may produce. `Listing.ListingDeterminedUpToTies` shows that every order `qsort` may leave agrees with this one on year and title at every position.
- Opening, writing and closing the file are left out, so a save that fails to open the file is not modelled. A save always replaces the file text, and a missing file is read as empty text.
- `malloc`, `free`, `limparMemoria` and the `exit(1)` paths on allocation failure are manual memory management with no behaviour to state.
- Float semantics are not modelled. A rating is an exact number of tenths, so a rating entered with finer precision is outside the model, and so is the rounding that `%.1f` applies to such a value.
- Decimal.ReadTenths: keeps only the first digit after the point. It does not model the extra digits a float keeps. It also does not model the exponent, hexadecimal, `inf` and `nan` forms that `strtof` accepts.
- Decimal.ReadInt: does not model `int` overflow in `%d`; the number read is unbounded.
- Field length limits are not modelled: the 100-byte field buffers, the unbounded `%[^,]` writes into them, and `fgets` splitting lines longer than 511 bytes.
- Overflow in the comparator's `ano - ano` subtraction is not modelled. It cannot happen for years in range.
- No delete operation exists in the program, so none is modelled.
