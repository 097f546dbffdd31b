/**
 * The catalog file: a header line, then one comma-separated line per
 * record (`id,title,director,year,genre,rating`). Saving writes the whole
 * catalog; loading drops the header, keeps every line that yields all six
 * fields, skips the others, and stops at the catalog's capacity.
 */
module Csv {
  import opened Options
  import opened Decimal
  import opened Store

  const Header: string := "ID,Titulo,Diretor,Ano,Genero,Avaliacao"

  /** What `%[^,]` reads completely: non-empty and comma-free. */
  predicate ScanField(s: string) {
    |s| > 0 && ',' !in s
  }

  /** A text field the format carries unchanged: one `%[^,]` reads it, and it holds no line break. */
  predicate PlainField(s: string) {
    ScanField(s) && '\n' !in s
  }

  /** A record whose saved line loads back as the same record. */
  predicate Storable(m: Movie) {
    PlainField(m.title) && PlainField(m.director) && PlainField(m.genre)
  }

  /** Every record of the catalog is storable. */
  predicate AllStorable(c: Catalog) {
    forall i :: 0 <= i < |c| ==> Storable(c[i])
  }

  /** A record whose text fields hold no line break: its saved line is one line. */
  predicate OneLine(m: Movie) {
    '\n' !in m.title && '\n' !in m.director && '\n' !in m.genre
  }

  /** The line `%d,%s,%s,%d,%s,%.1f` writes for a record. */
  function FormatLine(m: Movie): (s: string)
    ensures OneLine(m) ==> '\n' !in s
  {
    IntHasNoBreak(m.id);
    IntHasNoBreak(m.year);
    TenthsHaveNoBreak(m.rating);
    FormatInt(m.id) + ("," + (m.title + ("," + (m.director + ("," +
    (FormatInt(m.year) + ("," + (m.genre + ("," + FormatTenths(m.rating))))))))))
  }

  /** Length of the longest comma-free prefix of `s`. */
  function FieldEnd(s: string): (k: nat)
    ensures k <= |s| && ',' !in s[..k]
    ensures k < |s| ==> s[k] == ','
  {
    if |s| > 0 && s[0] != ',' then
      var k' := FieldEnd(s[1..]);
      assert s[..1 + k'] == [s[0]] + s[1..][..k'];
      1 + k'
    else 0
  }

  /** `%[^,]`: a non-empty run of characters up to the next comma, and the rest. */
  function ReadText(s: string): (r: Option<(string, string)>)
    ensures r.Some? ==> ScanField(r.value.0) && s == r.value.0 + r.value.1
    ensures r.Some? ==> |r.value.1| == 0 || r.value.1[0] == ','
    ensures r.None? <==> |s| == 0 || s[0] == ','
  {
    var k := FieldEnd(s);
    if k == 0 then None
    else
      assert s == s[..k] + s[k..];
      Some((s[..k], s[k..]))
  }

  /** The literal comma between two conversions. */
  function SkipComma(s: string): (r: Option<string>)
    ensures r.Some? ==> s == "," + r.value
  {
    if |s| > 0 && s[0] == ',' then
      assert s == [s[0]] + s[1..];
      Some(s[1..])
    else None
  }

  /** A `%d` conversion followed by the comma that separates it from the next field. */
  function IntField(s: string): (r: Option<(int, string)>)
    ensures r.Some? ==> |r.value.1| < |s| && r.value.1 == s[|s| - |r.value.1|..]
    ensures r.Some? ==> ReadInt(s) == Some((r.value.0, "," + r.value.1))
  {
    var p :- ReadInt(s);
    ReadIntLeavesSuffix(s);
    var rest :- SkipComma(p.1);
    assert rest == p.1[1..];
    Some((p.0, rest))
  }

  /** A `%[^,]` conversion followed by the comma that separates it from the next field. */
  function TextField(s: string): (r: Option<(string, string)>)
    ensures r.Some? ==> ScanField(r.value.0)
    ensures r.Some? ==> s == r.value.0 + "," + r.value.1
  {
    var p :- ReadText(s);
    var rest :- SkipComma(p.1);
    Some((p.0, rest))
  }

  /**
   * `sscanf(line, "%d,%[^,],%[^,],%d,%[^,],%f", ...) == 6`: the record,
   * when all six conversions succeed. Text after the rating is ignored.
   */
  function ParseLine(line: string): (r: Option<Movie>)
    ensures r.Some? ==> ScanField(r.value.title)
    ensures r.Some? ==> ScanField(r.value.director)
    ensures r.Some? ==> ScanField(r.value.genre)
  {
    var id :- IntField(line);
    var title :- TextField(id.1);
    var director :- TextField(title.1);
    var year :- IntField(director.1);
    var genre :- TextField(year.1);
    var rating :- ReadTenths(genre.1);
    Some(Movie(id.0, title.0, director.0, year.0, genre.0, rating))
  }

  lemma {:induction false} FieldEndOfConcat(t: string, rest: string)
    requires ',' !in t
    requires |rest| == 0 || rest[0] == ','
    ensures FieldEnd(t + rest) == |t|
  {
    if |t| > 0 {
      assert (t + rest)[1..] == t[1..] + rest;
      assert t == [t[0]] + t[1..];
      FieldEndOfConcat(t[1..], rest);
    }
  }

  lemma ReadTextOfField(t: string, rest: string)
    requires ScanField(t)
    requires |rest| == 0 || rest[0] == ','
    ensures ReadText(t + rest) == Some((t, rest))
  {
    FieldEndOfConcat(t, rest);
    assert (t + rest)[..|t|] == t;
    assert (t + rest)[|t|..] == rest;
  }

  lemma IntFieldOfFormat(i: int, rest: string)
    ensures IntField(FormatInt(i) + ("," + rest)) == Some((i, rest))
  {
    ReadIntOfFormat(i, "," + rest);
    assert ("," + rest)[1..] == rest;
  }

  lemma TextFieldOfPlain(t: string, rest: string)
    requires ScanField(t)
    ensures TextField(t + ("," + rest)) == Some((t, rest))
  {
    ReadTextOfField(t, "," + rest);
    assert ("," + rest)[1..] == rest;
  }

  /** Text `%d` reads completely, then a comma: the field yields the number and what follows. */
  lemma IntFieldOfText(a: string, v: int, rest: string)
    requires ReadInt(a) == Some((v, ""))
    ensures IntField(a + ("," + rest)) == Some((v, rest))
  {
    ReadIntAppend(a, v, "," + rest);
    assert ("," + rest)[1..] == rest;
  }

  /** What the field consumed is text `%d` reads completely, then a comma. */
  lemma IntFieldParts(s: string, v: int, rest: string)
    requires IntField(s) == Some((v, rest))
    ensures exists a :: s == a + ("," + rest) && ReadInt(a) == Some((v, ""))
  {
    ReadIntPrefix(s, v, "," + rest);
    var a := s[..|s| - |"," + rest|];
    assert s == a + ("," + rest);
  }

  /**
   * An integer field yields `v` and leaves `rest` exactly when the text is
   * something `%d` reads completely as `v`, a comma, and `rest`.
   */
  lemma IntFieldIff(s: string, v: int, rest: string)
    ensures IntField(s) == Some((v, rest)) <==> exists a :: s == a + ("," + rest) && ReadInt(a) == Some((v, ""))
  {
    if IntField(s) == Some((v, rest)) {
      IntFieldParts(s, v, rest);
    }
    if exists a :: s == a + ("," + rest) && ReadInt(a) == Some((v, "")) {
      var a :| s == a + ("," + rest) && ReadInt(a) == Some((v, ""));
      IntFieldOfText(a, v, rest);
    }
  }

  /** The six conversions, each reading its field and the comma after it. */
  lemma ParseNested(id: int, title: string, director: string, year: int, genre: string, tail: string, rating: Tenths)
    requires ScanField(title)
    requires ScanField(director)
    requires ScanField(genre)
    requires ReadTenths(tail) == Some(rating)
    ensures ParseLine(FormatInt(id) + ("," + (title + ("," + (director + ("," +
      (FormatInt(year) + ("," + (genre + ("," + tail)))))))))) ==
      Some(Movie(id, title, director, year, genre, rating))
  {
    var s5 := genre + ("," + tail);
    var s4 := FormatInt(year) + ("," + s5);
    var s3 := director + ("," + s4);
    var s2 := title + ("," + s3);
    IntFieldOfFormat(id, s2);
    TextFieldOfPlain(title, s3);
    TextFieldOfPlain(director, s4);
    IntFieldOfFormat(year, s5);
    TextFieldOfPlain(genre, tail);
  }

  /** Six field texts joined by commas. */
  function Joined(a: string, title: string, director: string, b: string, genre: string, t: string): string {
    a + ("," + (title + ("," + (director + ("," + (b + ("," + (genre + ("," + t)))))))))
  }

  /**
   * `line` is the texts `a`, `m.title`, `m.director`, `b`, `m.genre` and
   * `t` joined by commas, where `%d` reads `a` and `b` completely as the
   * id and the year, `%[^,]` reads the three text fields completely, and
   * `%f` reads the rating at the start of `t`.
   */
  predicate LineFields(line: string, a: string, b: string, t: string, m: Movie) {
    line == Joined(a, m.title, m.director, b, m.genre, t)
    && ReadInt(a) == Some((m.id, "")) && ReadInt(b) == Some((m.year, ""))
    && ScanField(m.title) && ScanField(m.director) && ScanField(m.genre)
    && ReadTenths(t) == Some(m.rating)
  }

  /** A line made of six well-formed fields parses as their record. */
  lemma ParseOfFields(line: string, a: string, b: string, t: string, m: Movie)
    requires LineFields(line, a, b, t, m)
    ensures ParseLine(line) == Some(m)
  {
    var s5 := m.genre + ("," + t);
    var s4 := b + ("," + s5);
    var s3 := m.director + ("," + s4);
    var s2 := m.title + ("," + s3);
    IntFieldOfText(a, m.id, s2);
    TextFieldOfPlain(m.title, s3);
    TextFieldOfPlain(m.director, s4);
    IntFieldOfText(b, m.year, s5);
    TextFieldOfPlain(m.genre, t);
  }

  lemma TextFieldSplit(s: string)
    requires TextField(s).Some?
    ensures var p := TextField(s).value;
      s == p.0 + ("," + p.1) && ScanField(p.0)
  {
    var p := TextField(s).value;
    assert s == p.0 + "," + p.1;
  }

  lemma IntFieldSplit(s: string) returns (a: string)
    requires IntField(s).Some?
    ensures s == a + ("," + IntField(s).value.1) && ReadInt(a) == Some((IntField(s).value.0, ""))
  {
    IntFieldParts(s, IntField(s).value.0, IntField(s).value.1);
    a :| s == a + ("," + IntField(s).value.1) && ReadInt(a) == Some((IntField(s).value.0, ""));
  }

  /** Every line that parses is six well-formed fields joined by commas. */
  lemma ParseLineFields(line: string) returns (a: string, b: string, t: string)
    requires ParseLine(line).Some?
    ensures LineFields(line, a, b, t, ParseLine(line).value)
  {
    var id := IntField(line).value;
    a := IntFieldSplit(line);
    var title := TextField(id.1).value;
    TextFieldSplit(id.1);
    var director := TextField(title.1).value;
    TextFieldSplit(title.1);
    var year := IntField(director.1).value;
    b := IntFieldSplit(director.1);
    var genre := TextField(year.1).value;
    TextFieldSplit(year.1);
    t := genre.1;
    assert ParseLine(line).value == Movie(id.0, title.0, director.0, year.0, genre.0, ReadTenths(t).value);
  }

  /**
   * `sscanf` fills all six fields with the record `m` exactly when the line
   * is six fields joined by commas that read completely as `m`'s values,
   * with the rating at the start of the last.
   */
  lemma ParseLineIff(line: string, m: Movie)
    ensures ParseLine(line) == Some(m) <==> exists a, b, t :: LineFields(line, a, b, t, m)
  {
    if ParseLine(line) == Some(m) {
      var a, b, t := ParseLineFields(line);
    }
    if exists a, b, t :: LineFields(line, a, b, t, m) {
      var a, b, t :| LineFields(line, a, b, t, m);
      ParseOfFields(line, a, b, t, m);
    }
  }

  /** Parsing the line written for a record gives the record back. */
  lemma ParseFormatLine(m: Movie)
    requires ScanField(m.title)
    requires ScanField(m.director)
    requires ScanField(m.genre)
    ensures ParseLine(FormatLine(m)) == Some(m)
  {
    ReadTenthsOfFormat(m.rating, "");
    assert FormatTenths(m.rating) + "" == FormatTenths(m.rating);
    ParseNested(m.id, m.title, m.director, m.year, m.genre, FormatTenths(m.rating), m.rating);
  }

  /** The text fields of a record parsed from one line hold no line break either. */
  lemma ParsedIsStorable(line: string)
    requires '\n' !in line
    requires ParseLine(line).Some?
    ensures Storable(ParseLine(line).value)
  {
    var a, b, t := ParseLineFields(line);
  }

  /** No record's text fields hold a line break. */
  predicate AllOneLine(c: Catalog) {
    forall i :: 0 <= i < |c| ==> OneLine(c[i])
  }

  /** The records' lines, in catalog order. */
  function FormatLines(c: Catalog): (ls: seq<string>)
    ensures |ls| == |c| && forall i :: 0 <= i < |c| ==> ls[i] == FormatLine(c[i])
  {
    if |c| == 0 then [] else [FormatLine(c[0])] + FormatLines(c[1..])
  }

  /**
   * The whole file `salvarDados` writes for a catalog: when no text field
   * holds a line break, its lines are the header and then one line per
   * record, in catalog order.
   */
  function SaveText(c: Catalog): (r: string)
    ensures AllOneLine(c) ==> Lines(r) == [Header] + FormatLines(c)
  {
    assert '\n' !in Header;
    LinesOfCons(Header, Body(c));
    Header + "\n" + Body(c)
  }

  /** One line, ended by a line break, per record, in catalog order. */
  function Body(c: Catalog): (r: string)
    ensures AllOneLine(c) ==> Lines(r) == FormatLines(c)
  {
    if |c| == 0 then ""
    else
      var r := FormatLine(c[0]) + "\n" + Body(c[1..]);
      assert AllOneLine(c) ==> Lines(r) == FormatLines(c) by {
        if AllOneLine(c) {
          assert OneLine(c[0]);
          assert AllOneLine(c[1..]) by {
            forall i | 0 <= i < |c| - 1 ensures OneLine(c[1..][i]) {
              assert c[1..][i] == c[i + 1];
            }
          }
          LinesOfCons(FormatLine(c[0]), Body(c[1..]));
        }
      }
      r
  }

  /** Length of the longest prefix of `s` with no line break. */
  function LineEnd(s: string): (k: nat)
    ensures k <= |s| && '\n' !in s[..k]
    ensures k < |s| ==> s[k] == '\n'
  {
    if |s| > 0 && s[0] != '\n' then
      var k' := LineEnd(s[1..]);
      assert s[..1 + k'] == [s[0]] + s[1..][..k'];
      1 + k'
    else 0
  }

  /**
   * The lines successive `fgets` calls return, without their line breaks.
   * A final line with no line break still counts; a file ending in a line
   * break has no empty last line.
   */
  function Lines(text: string): (ls: seq<string>)
    ensures forall i :: 0 <= i < |ls| ==> '\n' !in ls[i]
  {
    if |text| == 0 then []
    else
      var k := LineEnd(text);
      if k == |text| then [text] else [text[..k]] + Lines(text[k + 1..])
  }

  /**
   * The records read from the lines after the header, starting from `acc`:
   * a line that parses adds its record, any other line is skipped, and
   * reading stops once the catalog is full.
   */
  function LoadLines(lines: seq<string>, acc: Catalog): (r: Catalog)
    ensures |acc| <= |r| <= |acc| + |lines| && r[..|acc|] == acc
    ensures |acc| <= MaxMovies ==> |r| <= MaxMovies
  {
    if |lines| == 0 || |acc| >= MaxMovies then acc
    else
      match ParseLine(lines[0])
      case Some(m) =>
        var r := LoadLines(lines[1..], acc + [m]);
        PrefixOfPrefix(r, acc + [m], |acc|);
        r
      case None => LoadLines(lines[1..], acc)
  }

  lemma PrefixOfPrefix(r: Catalog, p: Catalog, k: nat)
    requires k <= |p| <= |r| && r[..|p|] == p
    ensures r[..k] == p[..k]
  {
    assert r[..k] == r[..|p|][..k];
  }

  /** `inicializa`: the first line is the header and is dropped whatever it holds. */
  function Load(text: string): (r: Catalog)
    ensures |r| <= MaxMovies
  {
    var ls := Lines(text);
    if |ls| == 0 then [] else LoadLines(ls[1..], [])
  }

  /** Every record some line yields, in file order, with no capacity limit. */
  function Parsed(lines: seq<string>): Catalog {
    if |lines| == 0 then []
    else
      match ParseLine(lines[0])
      case Some(m) => [m] + Parsed(lines[1..])
      case None => Parsed(lines[1..])
  }

  function Take(c: Catalog, n: nat): (r: Catalog)
    ensures |r| <= n && |r| <= |c| && r == c[..|r|]
    ensures |c| <= n ==> r == c
  {
    if |c| <= n then c else c[..n]
  }

  /** Loading keeps the first records the lines yield, as many as fit. */
  lemma {:induction false} LoadLinesTakesParsed(lines: seq<string>, acc: Catalog)
    requires |acc| <= MaxMovies
    ensures LoadLines(lines, acc) == acc + Take(Parsed(lines), MaxMovies - |acc|)
  {
    if |lines| > 0 && |acc| < MaxMovies {
      var p := Parsed(lines[1..]);
      match ParseLine(lines[0])
      case Some(m) =>
        assert LoadLines(lines, acc) == LoadLines(lines[1..], acc + [m]);
        assert Parsed(lines) == [m] + p;
        LoadLinesTakesParsed(lines[1..], acc + [m]);
        TakeCons(m, p, MaxMovies - |acc|);
      case None =>
        LoadLinesTakesParsed(lines[1..], acc);
    }
  }

  lemma TakeCons(m: Movie, p: Catalog, n: nat)
    requires n > 0
    ensures Take([m] + p, n) == [m] + Take(p, n - 1)
  {
  }

  lemma LoadIsParsedPrefix(text: string)
    requires |Lines(text)| > 0
    ensures Load(text) == Take(Parsed(Lines(text)[1..]), MaxMovies)
  {
    LoadLinesTakesParsed(Lines(text)[1..], []);
  }

  /** A loaded catalog is within capacity and holds only records the format carries unchanged. */
  lemma LoadedIsStorable(text: string)
    ensures |Load(text)| <= MaxMovies
    ensures AllStorable(Load(text))
  {
    var ls := Lines(text);
    if |ls| > 0 {
      LoadIsParsedPrefix(text);
      ParsedAreStorable(ls[1..]);
    }
  }

  lemma {:induction false} ParsedAreStorable(lines: seq<string>)
    requires forall i :: 0 <= i < |lines| ==> '\n' !in lines[i]
    ensures AllStorable(Parsed(lines))
  {
    if |lines| > 0 {
      ParsedAreStorable(lines[1..]);
      if ParseLine(lines[0]).Some? {
        ParsedIsStorable(lines[0]);
      }
    }
  }

  lemma {:induction false} LineEndOfConcat(a: string, b: string)
    requires '\n' !in a
    requires |b| == 0 || b[0] == '\n'
    ensures LineEnd(a + b) == |a|
  {
    if |a| > 0 {
      assert (a + b)[1..] == a[1..] + b;
      assert a == [a[0]] + a[1..];
      LineEndOfConcat(a[1..], b);
    }
  }

  /** A line followed by a line break is read as that line, then the rest. */
  lemma LinesOfCons(a: string, b: string)
    requires '\n' !in a
    ensures Lines(a + "\n" + b) == [a] + Lines(b)
  {
    var t := a + "\n" + b;
    assert t == a + ("\n" + b);
    LineEndOfConcat(a, "\n" + b);
    assert t[..|a|] == a;
    assert t[|a| + 1..] == b;
  }

  lemma IntHasNoBreak(i: int)
    ensures '\n' !in FormatInt(i)
  {
    assert !IsDigit('\n');
    assert '\n' !in NatToString(if i < 0 then -i else i);
  }

  lemma TenthsHaveNoBreak(t: int)
    ensures '\n' !in FormatTenths(t)
  {
    var m := if t < 0 then -t else t;
    assert !IsDigit('\n');
    assert '\n' !in NatToString(m / 10);
    assert '\n' !in UnsignedTenthsText(m);
  }

  lemma HeaderIsOneLine()
    ensures '\n' !in Header
  {
  }

  /** Parsing the saved lines of storable records yields those records. */
  lemma {:induction false} ParsedOfFormatted(c: Catalog)
    requires AllStorable(c)
    ensures Parsed(FormatLines(c)) == c
  {
    if |c| > 0 {
      var ls := FormatLines(c);
      assert ls[1..] == FormatLines(c[1..]);
      ParsedOfFormattedHead(ls, c[0]);
      ParsedOfFormatted(c[1..]);
      assert c == [c[0]] + c[1..];
    }
  }

  lemma ParsedOfFormattedHead(lines: seq<string>, m: Movie)
    requires Storable(m)
    requires |lines| > 0 && lines[0] == FormatLine(m)
    ensures Parsed(lines) == [m] + Parsed(lines[1..])
  {
    ParseFormatLine(m);
  }

  /**
   * Saving then loading gives back the catalog, for a catalog within
   * capacity whose text fields are non-empty and free of commas and line
   * breaks.
   */
  lemma LoadSave(c: Catalog)
    requires |c| <= MaxMovies
    requires AllStorable(c)
    ensures Load(SaveText(c)) == c
  {
    assert AllOneLine(c);
    assert Lines(SaveText(c))[1..] == FormatLines(c);
    ParsedOfFormatted(c);
    LoadIsParsedPrefix(SaveText(c));
  }

  /** Whatever file was loaded, saving and loading again gives the same catalog. */
  lemma LoadSaveLoad(text: string)
    ensures Load(SaveText(Load(text))) == Load(text)
  {
    LoadedIsStorable(text);
    LoadSave(Load(text));
  }

  /** The text of a file made of the given lines, each ended by a line break. */
  function Join(ls: seq<string>): string {
    if |ls| == 0 then "" else ls[0] + "\n" + Join(ls[1..])
  }

  /** Reading the lines of such a file gives the lines back. */
  lemma {:induction false} LinesOfJoin(ls: seq<string>)
    requires forall i :: 0 <= i < |ls| ==> '\n' !in ls[i]
    ensures Lines(Join(ls)) == ls
  {
    if |ls| > 0 {
      LinesOfCons(ls[0], Join(ls[1..]));
      LinesOfJoin(ls[1..]);
    }
  }

  lemma {:induction false} ParsedAppend(a: seq<string>, b: seq<string>)
    ensures Parsed(a + b) == Parsed(a) + Parsed(b)
  {
    if |a| == 0 {
      assert a + b == b;
    } else {
      assert (a + b)[0] == a[0];
      assert (a + b)[1..] == a[1..] + b;
      ParsedAppend(a[1..], b);
    }
  }

  /** A line that does not parse contributes nothing, wherever it stands. */
  lemma MalformedLineSkipped(a: seq<string>, bad: string, b: seq<string>)
    requires ParseLine(bad).None?
    ensures Parsed(a + [bad] + b) == Parsed(a) + Parsed(b)
  {
    ParsedAppend(a + [bad], b);
    ParsedAppend(a, [bad]);
  }

  lemma ParsedGoodLine(l: string, m: Movie, rest: seq<string>)
    requires ParseLine(l) == Some(m)
    ensures Parsed([l] + rest) == [m] + Parsed(rest)
  {
    assert ([l] + rest)[0] == l;
    assert ([l] + rest)[1..] == rest;
  }

  lemma LinesOfJoinFour(a: string, b: string, c: string, d: string)
    requires '\n' !in a && '\n' !in b && '\n' !in c && '\n' !in d
    ensures Lines(Join([a, b, c, d])) == [a, b, c, d]
  {
    LinesOfJoin([a, b, c, d]);
  }

  lemma LoadGoodAndBadLines(h: string, l1: string, l2: string, bad: string, m1: Movie, m2: Movie)
    requires '\n' !in h && '\n' !in l1 && '\n' !in l2 && '\n' !in bad
    requires ParseLine(l1) == Some(m1) && ParseLine(l2) == Some(m2) && ParseLine(bad).None?
    ensures Load(Join([h, l1, l2, bad])) == [m1, m2]
  {
    var ls := [h, l1, l2, bad];
    LinesOfJoinFour(h, l1, l2, bad);
    assert Lines(Join(ls))[1..] == [l1, l2, bad];
    ParsedTwoGoodOneBad(l1, l2, bad, m1, m2);
    LoadIsParsedPrefix(Join(ls));
  }

  lemma ParsedTwoGoodOneBad(l1: string, l2: string, bad: string, m1: Movie, m2: Movie)
    requires ParseLine(l1) == Some(m1) && ParseLine(l2) == Some(m2) && ParseLine(bad).None?
    ensures Parsed([l1, l2, bad]) == [m1, m2]
  {
    SplitThreeLines(l1, l2, bad);
    ParsedGoodLine(l1, m1, [l2, bad]);
    ParsedGoodLine(l2, m2, [bad]);
    ParsedBadLine(bad);
  }

  /** A three-line sequence split at its head, stated apart from any parsing facts. */
  lemma SplitThreeLines(a: string, b: string, c: string)
    ensures [a, b, c] == [a] + [b, c] && [b, c] == [b] + [c]
  {
  }

  lemma ParsedBadLine(bad: string)
    requires ParseLine(bad).None?
    ensures Parsed([bad]) == []
  {
    assert [bad][1..] == [];
  }

  /** A file holding a header, two good lines and one malformed line loads as the two records. */
  lemma LoadTwoGoodOneBad(m1: Movie, m2: Movie, bad: string)
    requires Storable(m1) && Storable(m2)
    requires '\n' !in bad && ParseLine(bad).None?
    ensures Load(Join([Header, FormatLine(m1), FormatLine(m2), bad])) == [m1, m2]
  {
    ParseFormatLine(m1);
    ParseFormatLine(m2);
    HeaderIsOneLine();
    LoadGoodAndBadLines(Header, FormatLine(m1), FormatLine(m2), bad, m1, m2);
  }

  /** The line of a record with an empty title does not parse: `%[^,]` needs at least one character. */
  lemma EmptyTitleLineRejected(m: Movie)
    requires m.title == ""
    ensures ParseLine(FormatLine(m)).None?
  {
    var rest := EmptyTitleLine(m);
    SecondFieldEmptyRejected(m.id, rest);
  }

  lemma EmptyTitleLine(m: Movie) returns (rest: string)
    requires m.title == ""
    ensures FormatLine(m) == FormatInt(m.id) + ("," + ("," + rest))
  {
    rest := m.director + ("," + (FormatInt(m.year) + ("," + (m.genre + ("," + FormatTenths(m.rating))))));
  }

  lemma SecondFieldEmptyRejected(id: int, rest: string)
    ensures ParseLine(FormatInt(id) + ("," + ("," + rest))).None?
  {
    IntFieldOfFormat(id, "," + rest);
    EmptyFieldRejected(rest);
  }

  lemma EmptyFieldRejected(rest: string)
    ensures TextField("," + rest).None?
  {
    assert ("," + rest)[0] == ',';
  }

  /** A saved catalog of one record whose line does not parse loads as empty. */
  lemma LoadSaveUnparsable(m: Movie)
    requires '\n' !in m.title && '\n' !in m.director && '\n' !in m.genre
    requires ParseLine(FormatLine(m)).None?
    ensures Load(SaveText([m])) == []
  {
    assert AllOneLine([m]);
    assert Lines(SaveText([m]))[1..] == [FormatLine(m)];
    LoadIsParsedPrefix(SaveText([m]));
  }
}
