/** The three playtime queries (functions.py:28-147).

    Each query takes a year, refuses an argument that is not a number, refuses a
    year that does not occur in the table's `Release` column, keeps that year's
    rows, and ranks them: by genre totals (top five), by game playtime (top
    five), or by the smallest positive game playtime (bottom three). The tables
    are parameters here; `Release` is an integer column compared with the year
    as a number, so 2015 and 2015.0 name the same year. */
module Playtime {
  import opened Basics
  import opened Sorting
  import opened Store

  /** The argument as Python sees it: an `int` or `float`, or anything else. */
  datatype YearArg = Numeric(year: real) | NotNumeric

  /** A row of `genres_playtime`: release year, genre, millions of hours played. */
  datatype GenreRow = GenreRow(release: int, genre: string, hours: real)

  /** A row of the genre answer: a genre and its summed hours. */
  datatype GenreTotal = GenreTotal(genre: string, hours: real)

  /** A row of `games_playtime`: release year, game name, playtime. */
  datatype GameRow = GameRow(release: int, name: string, playtime: real)

  /** A row of the game answers: only the `Item_name` and `Playtime` columns. */
  datatype GamePlaytime = GamePlaytime(name: string, playtime: real)

  /* ---------- the Release column ---------- */

  function GenreReleases(rows: seq<GenreRow>): (r: seq<real>)
    ensures |r| == |rows|
    ensures forall i :: 0 <= i < |rows| ==> r[i] == rows[i].release as real
  {
    if rows == [] then [] else [rows[0].release as real] + GenreReleases(rows[1..])
  }

  function GameReleases(rows: seq<GameRow>): (r: seq<real>)
    ensures |r| == |rows|
    ensures forall i :: 0 <= i < |rows| ==> r[i] == rows[i].release as real
  {
    if rows == [] then [] else [rows[0].release as real] + GameReleases(rows[1..])
  }

  /** `genres_playtime[genres_playtime['Release'] == year]`. */
  function GenresOfYear(rows: seq<GenreRow>, y: real): (r: seq<GenreRow>)
    ensures forall x :: x in r <==> x in rows && x.release as real == y
    ensures forall x :: multiset(r)[x] == if x.release as real == y then multiset(rows)[x] else 0
  {
    if rows == [] then []
    else
      assert rows == [rows[0]] + rows[1..];
      if rows[0].release as real == y then [rows[0]] + GenresOfYear(rows[1..], y)
      else GenresOfYear(rows[1..], y)
  }

  /** `games_playtime[games_playtime['Release'] == year]`. */
  function GamesOfYear(rows: seq<GameRow>, y: real): (r: seq<GameRow>)
    ensures forall x :: x in r <==> x in rows && x.release as real == y
    ensures forall x :: multiset(r)[x] == if x.release as real == y then multiset(rows)[x] else 0
  {
    if rows == [] then []
    else
      assert rows == [rows[0]] + rows[1..];
      if rows[0].release as real == y then [rows[0]] + GamesOfYear(rows[1..], y)
      else GamesOfYear(rows[1..], y)
  }

  /** The rows of the year whose playtime is greater than zero. */
  function PositiveGamesOfYear(rows: seq<GameRow>, y: real): (r: seq<GameRow>)
    ensures forall x :: x in r <==> x in rows && x.release as real == y && x.playtime > 0.0
    ensures forall x :: multiset(r)[x] == (if x.release as real == y && x.playtime > 0.0 then multiset(rows)[x] else 0)
  {
    if rows == [] then []
    else
      assert rows == [rows[0]] + rows[1..];
      if rows[0].release as real == y && rows[0].playtime > 0.0 then [rows[0]] + PositiveGamesOfYear(rows[1..], y)
      else PositiveGamesOfYear(rows[1..], y)
  }

  /* ---------- grouping by genre ---------- */

  /** The summed hours of the rows of genre `g`. */
  function HoursOf(rows: seq<GenreRow>, g: string): (r: real)
    ensures (forall x :: x in rows ==> x.genre != g) ==> r == 0.0
  {
    if rows == [] then 0.0
    else (if rows[0].genre == g then rows[0].hours else 0.0) + HoursOf(rows[1..], g)
  }

  function GenreNames(rows: seq<GenreRow>): (r: seq<string>)
    ensures |r| == |rows|
    ensures forall i :: 0 <= i < |rows| ==> r[i] == rows[i].genre
  {
    if rows == [] then [] else [rows[0].genre] + GenreNames(rows[1..])
  }

  function Totals(genres: seq<string>, rows: seq<GenreRow>): (r: seq<GenreTotal>)
    ensures |r| == |genres|
    ensures forall i :: 0 <= i < |genres| ==> r[i] == GenreTotal(genres[i], HoursOf(rows, genres[i]))
  {
    if genres == [] then [] else [GenreTotal(genres[0], HoursOf(rows, genres[0]))] + Totals(genres[1..], rows)
  }

  /** `groupby('Genres')['Playtime_Millon_Hours'].sum().reset_index()`: one row
      per genre. The groups are listed in first-occurrence order here. */
  function GroupByGenre(rows: seq<GenreRow>): (r: seq<GenreTotal>)
    ensures |r| <= |rows|
    ensures forall t :: t in r ==> t.hours == HoursOf(rows, t.genre)
  {
    Totals(KeepFirst(GenreNames(rows), Id, {}), rows)
  }

  /** Every genre of the rows has exactly one group, holding its summed hours,
      and there is no other group. */
  lemma GroupByGenreSpec(rows: seq<GenreRow>)
    ensures var groups := GroupByGenre(rows);
      && (forall i, j :: 0 <= i < j < |groups| ==> groups[i].genre != groups[j].genre)
      && (forall t :: t in groups <==> (exists x :: x in rows && x.genre == t.genre) && t.hours == HoursOf(rows, t.genre))
  {
    var names := GenreNames(rows);
    var distinct := KeepFirst(names, Id, {});
    var groups := GroupByGenre(rows);
    KeepFirstKeysDistinct(names, Id, {});
    KeepFirstCovers(names, Id, {});
    forall i, j | 0 <= i < j < |groups| ensures groups[i].genre != groups[j].genre {
      assert Id(distinct[i]) != Id(distinct[j]);
    }
    forall t | t in groups
      ensures (exists x :: x in rows && x.genre == t.genre) && t.hours == HoursOf(rows, t.genre)
    {
      var i :| 0 <= i < |groups| && groups[i] == t;
      assert distinct[i] in distinct;
      var k :| 0 <= k < |names| && names[k] == distinct[i];
      assert rows[k] in rows;
    }
    forall t: GenreTotal | (exists x :: x in rows && x.genre == t.genre) && t.hours == HoursOf(rows, t.genre)
      ensures t in groups
    {
      var x :| x in rows && x.genre == t.genre;
      var k :| 0 <= k < |rows| && rows[k] == x;
      assert names[k] in names && Id(names[k]) !in {};
      var y :| y in distinct && Id(y) == Id(names[k]);
      var i :| 0 <= i < |distinct| && distinct[i] == y;
      assert groups[i] == t;
    }
  }

  /* ---------- sort orders ---------- */

  function HoursDesc(a: GenreTotal, b: GenreTotal): bool { a.hours >= b.hours }
  function PlaytimeDesc(a: GameRow, b: GameRow): bool { a.playtime >= b.playtime }
  function PlaytimeAsc(a: GameRow, b: GameRow): bool { a.playtime <= b.playtime }

  lemma HoursDescOrder() ensures TotalPreorder(HoursDesc) {}
  lemma PlaytimeDescOrder() ensures TotalPreorder(PlaytimeDesc) {}
  lemma PlaytimeAscOrder() ensures TotalPreorder(PlaytimeAsc) {}

  /** The top groups by hours: non-increasing, and none left out has more. */
  lemma TopByHours(s: seq<GenreTotal>, n: nat)
    ensures var top := Top(s, n, HoursDesc);
      && (forall k, l :: 0 <= k < l < |top| ==> top[k].hours >= top[l].hours)
      && (forall y, x :: y in top && x in multiset(s) - multiset(top) ==> y.hours >= x.hours)
  {
    var top := Top(s, n, HoursDesc);
    assert SortedBy(top, HoursDesc) &&
      forall y, x :: y in top && x in multiset(s) - multiset(top) ==> HoursDesc(y, x)
    by {
      HoursDescOrder();
      TopDominates(s, n, HoursDesc);
    }
    forall k, l | 0 <= k < l < |top| ensures top[k].hours >= top[l].hours {
      assert HoursDesc(top[k], top[l]);
    }
    forall y, x | y in top && x in multiset(s) - multiset(top) ensures y.hours >= x.hours {
      assert HoursDesc(y, x);
    }
  }

  /** The top rows by playtime: non-increasing, and none left out has more. */
  lemma TopByPlaytime(s: seq<GameRow>, n: nat)
    ensures var top := Top(s, n, PlaytimeDesc);
      && (forall k, l :: 0 <= k < l < |top| ==> top[k].playtime >= top[l].playtime)
      && (forall y, x :: y in top && x in multiset(s) - multiset(top) ==> y.playtime >= x.playtime)
  {
    var top := Top(s, n, PlaytimeDesc);
    assert SortedBy(top, PlaytimeDesc) &&
      forall y, x :: y in top && x in multiset(s) - multiset(top) ==> PlaytimeDesc(y, x)
    by {
      PlaytimeDescOrder();
      TopDominates(s, n, PlaytimeDesc);
    }
    forall k, l | 0 <= k < l < |top| ensures top[k].playtime >= top[l].playtime {
      assert PlaytimeDesc(top[k], top[l]);
    }
    forall y, x | y in top && x in multiset(s) - multiset(top) ensures y.playtime >= x.playtime {
      assert PlaytimeDesc(y, x);
    }
  }

  /** The bottom rows by playtime: non-decreasing, and none left out has less. */
  lemma BottomByPlaytime(s: seq<GameRow>, n: nat)
    ensures var bottom := Top(s, n, PlaytimeAsc);
      && (forall k, l :: 0 <= k < l < |bottom| ==> bottom[k].playtime <= bottom[l].playtime)
      && (forall y, x :: y in bottom && x in multiset(s) - multiset(bottom) ==> y.playtime <= x.playtime)
  {
    var bottom := Top(s, n, PlaytimeAsc);
    assert SortedBy(bottom, PlaytimeAsc) &&
      forall y, x :: y in bottom && x in multiset(s) - multiset(bottom) ==> PlaytimeAsc(y, x)
    by {
      PlaytimeAscOrder();
      TopDominates(s, n, PlaytimeAsc);
    }
    forall k, l | 0 <= k < l < |bottom| ensures bottom[k].playtime <= bottom[l].playtime {
      assert PlaytimeAsc(bottom[k], bottom[l]);
    }
    forall y, x | y in bottom && x in multiset(s) - multiset(bottom) ensures y.playtime <= x.playtime {
      assert PlaytimeAsc(y, x);
    }
  }

  /** `[['Item_name', 'Playtime']]`. */
  function Project(rows: seq<GameRow>): (r: seq<GamePlaytime>)
    ensures |r| == |rows|
    ensures forall i :: 0 <= i < |rows| ==> r[i] == GamePlaytime(rows[i].name, rows[i].playtime)
  {
    if rows == [] then [] else [GamePlaytime(rows[0].name, rows[0].playtime)] + Project(rows[1..])
  }

  /* ---------- the queries ---------- */

  /** `top_genres_by_playtime(release_year)`. */
  function TopGenresByPlaytime(rows: seq<GenreRow>, arg: YearArg): (r: Answer<seq<GenreTotal>>)
    ensures r.Table? ==> arg.Numeric? && 0 < |r.rows| <= 5
  {
    match arg
    case NotNumeric => Message(InvalidInput)
    case Numeric(y) =>
      if y !in GenreReleases(rows) then Message(NoDataForYear(y))
      else
        var year := GenresOfYear(rows, y);
        if year == [] then Message(EmptyYear(y))
        else
          GroupOf(year, year[0]);
          Table(TopGenreRows(rows, y))
  }

  /** The groups of the year ranked by descending hours, first five. */
  function TopGenreRows(rows: seq<GenreRow>, y: real): (r: seq<GenreTotal>)
    ensures |r| <= 5
    ensures forall t :: t in r ==> t.hours == HoursOf(GenresOfYear(rows, y), t.genre)
  {
    TopIn(GroupByGenre(GenresOfYear(rows, y)), 5, HoursDesc);
    Top(GroupByGenre(GenresOfYear(rows, y)), 5, HoursDesc)
  }

  /** The rows of the year ranked by descending playtime, first five. */
  function TopGameRows(rows: seq<GameRow>, y: real): (r: seq<GameRow>)
    ensures |r| <= 5
    ensures forall x :: x in r ==> x in rows && x.release as real == y
  {
    TopIn(GamesOfYear(rows, y), 5, PlaytimeDesc);
    Top(GamesOfYear(rows, y), 5, PlaytimeDesc)
  }

  /** `top_5_games_by_playtime(release_year)`. */
  function TopGamesByPlaytime(rows: seq<GameRow>, arg: YearArg): (r: Answer<seq<GamePlaytime>>)
    ensures r.Table? ==> arg.Numeric? && 0 < |r.rows| <= 5
  {
    match arg
    case NotNumeric => Message(InvalidInput)
    case Numeric(y) =>
      if y !in GameReleases(rows) then Message(NoDataForYear(y))
      else if GamesOfYear(rows, y) == [] then Message(EmptyYear(y))
      else Table(Project(TopGameRows(rows, y)))
  }

  /** The rows of the year with positive playtime, by ascending playtime, first three. */
  function BottomGameRows(rows: seq<GameRow>, y: real): (r: seq<GameRow>)
    ensures |r| <= 3
    ensures forall x :: x in r ==> x in rows && x.release as real == y && x.playtime > 0.0
  {
    TopIn(PositiveGamesOfYear(rows, y), 3, PlaytimeAsc);
    Top(PositiveGamesOfYear(rows, y), 3, PlaytimeAsc)
  }

  /** `bottom_3_games_by_playtime(release_year)`. */
  function BottomGamesByPlaytime(rows: seq<GameRow>, arg: YearArg): (r: Answer<seq<GamePlaytime>>)
    ensures r.Table? ==> arg.Numeric? && 0 < |r.rows| <= 3 && forall g :: g in r.rows ==> g.playtime > 0.0
  {
    match arg
    case NotNumeric => Message(InvalidInput)
    case Numeric(y) =>
      if y !in GameReleases(rows) then Message(NoDataForYear(y))
      else if PositiveGamesOfYear(rows, y) == [] then Message(NoPositivePlaytime(y))
      else Table(Project(BottomGameRows(rows, y)))
  }

  /* ---------- what the queries promise ---------- */

  /** The year is in the `Release` column exactly when some row has it. */
  lemma GenreYearPresent(rows: seq<GenreRow>, y: real)
    ensures y in GenreReleases(rows) <==> GenresOfYear(rows, y) != []
  {
    var rel := GenreReleases(rows);
    if y in rel {
      var i :| 0 <= i < |rel| && rel[i] == y;
      assert rows[i] in GenresOfYear(rows, y);
    }
    forall x | x in GenresOfYear(rows, y) ensures y in rel {
      var i :| 0 <= i < |rows| && rows[i] == x;
      assert rel[i] == y;
    }
    if GenresOfYear(rows, y) != [] {
      assert GenresOfYear(rows, y)[0] in GenresOfYear(rows, y);
    }
  }

  lemma GameYearPresent(rows: seq<GameRow>, y: real)
    ensures y in GameReleases(rows) <==> GamesOfYear(rows, y) != []
  {
    var rel := GameReleases(rows);
    if y in rel {
      var i :| 0 <= i < |rel| && rel[i] == y;
      assert rows[i] in GamesOfYear(rows, y);
    }
    forall x | x in GamesOfYear(rows, y) ensures y in rel {
      var i :| 0 <= i < |rows| && rows[i] == x;
      assert rel[i] == y;
    }
    if GamesOfYear(rows, y) != [] {
      assert GamesOfYear(rows, y)[0] in GamesOfYear(rows, y);
    }
  }

  /** Every failure, as a value: a non-number is refused with "Invalid input",
      a year no row has with "no data for the year", and the "empty after
      filtering" message is never produced. */
  lemma TopGenresErrors(rows: seq<GenreRow>, arg: YearArg)
    ensures var r := TopGenresByPlaytime(rows, arg);
      && (r == Message(InvalidInput) <==> arg.NotNumeric?)
      && (arg.Numeric? ==>
            (r == Message(NoDataForYear(arg.year)) <==> forall x :: x in rows ==> x.release as real != arg.year))
      && (r.Message? ==> !r.error.EmptyYear?)
      && (r.Table? <==> arg.Numeric? && exists x :: x in rows && x.release as real == arg.year)
  {
    if arg.Numeric? {
      GenreYearPresent(rows, arg.year);
      if GenresOfYear(rows, arg.year) != [] {
        assert GenresOfYear(rows, arg.year)[0] in GenresOfYear(rows, arg.year);
      }
    }
  }

  /** With the year present, the answer is the table of the top groups. */
  lemma TopGenresAnswer(rows: seq<GenreRow>, y: real)
    requires exists x :: x in rows && x.release as real == y
    ensures TopGenresByPlaytime(rows, Numeric(y)) == Table(TopGenreRows(rows, y))
  {
    var x0 :| x0 in rows && x0.release as real == y;
    assert x0 in GenresOfYear(rows, y);
    GenreYearPresent(rows, y);
  }

  /** At most five genres, each once, each a genre of the year's rows with the
      sum of that genre's hours in that year. */
  lemma TopGenreRowsTotals(rows: seq<GenreRow>, y: real)
    ensures var year := GenresOfYear(rows, y);
      var top := TopGenreRows(rows, y);
      && |top| == (if |GroupByGenre(year)| <= 5 then |GroupByGenre(year)| else 5)
      && (forall i, j :: 0 <= i < j < |top| ==> top[i].genre != top[j].genre)
      && (forall t :: t in top ==>
            (exists x :: x in rows && x.release as real == y && x.genre == t.genre) &&
            t.hours == HoursOf(year, t.genre))
  {
    var year := GenresOfYear(rows, y);
    var groups := GroupByGenre(year);
    var top := TopGenreRows(rows, y);
    assert multiset(top) <= multiset(groups);
    assert KeysDistinct(top, GenreOf) by {
      assert KeysDistinct(groups, GenreOf) by {
        GroupByGenreSpec(year);
      }
      KeysDistinctSub(groups, top, GenreOf);
    }
    forall t | t in top
      ensures (exists x :: x in rows && x.release as real == y && x.genre == t.genre) && t.hours == HoursOf(year, t.genre)
    {
      assert t in multiset(top);
      assert t in groups;
      GroupByGenreSpec(year);
    }
  }

  function GenreOf(t: GenreTotal): string { t.genre }

  /** Each row's genre has its group, holding the genre's summed hours. */
  lemma GroupOf(rows: seq<GenreRow>, x: GenreRow)
    requires x in rows
    ensures GenreTotal(x.genre, HoursOf(rows, x.genre)) in GroupByGenre(rows)
  {
    GroupByGenreSpec(rows);
  }

  /** A genre of the year that is not listed has no more hours than any
      listed genre. */
  lemma TopGenreRowsDominate(rows: seq<GenreRow>, y: real)
    ensures var year := GenresOfYear(rows, y);
      var top := TopGenreRows(rows, y);
      forall x, t :: x in year && t in top && (forall u :: u in top ==> u.genre != x.genre) ==>
        t.hours >= HoursOf(year, x.genre)
  {
    var year := GenresOfYear(rows, y);
    var groups := GroupByGenre(year);
    var top := TopGenreRows(rows, y);
    assert forall t, g :: t in top && g in multiset(groups) - multiset(top) ==> t.hours >= g.hours by {
      TopByHours(groups, 5);
    }
    forall x, t | x in year && t in top && (forall u :: u in top ==> u.genre != x.genre)
      ensures t.hours >= HoursOf(year, x.genre)
    {
      var g := GenreTotal(x.genre, HoursOf(year, x.genre));
      GroupOf(year, x);
      assert g !in multiset(top);
    }
  }

  /** The genres come by non-increasing hours, and every genre of the year
      left out has no more hours than any genre listed. */
  lemma TopGenreRowsRanked(rows: seq<GenreRow>, y: real)
    ensures var year := GenresOfYear(rows, y);
      var top := TopGenreRows(rows, y);
      && (forall k, l :: 0 <= k < l < |top| ==> top[k].hours >= top[l].hours)
      && (forall x, t :: x in year && t in top && (forall u :: u in top ==> u.genre != x.genre) ==>
            t.hours >= HoursOf(year, x.genre))
  {
    TopByHours(GroupByGenre(GenresOfYear(rows, y)), 5);
    TopGenreRowsDominate(rows, y);
  }

  /** Every failure, as a value, for the top-five game query. */
  lemma TopGamesErrors(rows: seq<GameRow>, arg: YearArg)
    ensures var r := TopGamesByPlaytime(rows, arg);
      && (r == Message(InvalidInput) <==> arg.NotNumeric?)
      && (arg.Numeric? ==>
            (r == Message(NoDataForYear(arg.year)) <==> forall x :: x in rows ==> x.release as real != arg.year))
      && (r.Message? ==> !r.error.EmptyYear?)
      && (r.Table? <==> arg.Numeric? && exists x :: x in rows && x.release as real == arg.year)
  {
    if arg.Numeric? {
      GameYearPresent(rows, arg.year);
      if GamesOfYear(rows, arg.year) != [] {
        assert GamesOfYear(rows, arg.year)[0] in GamesOfYear(rows, arg.year);
      }
    }
  }

  /** With the year present, the answer is the projection of the kept rows. */
  lemma TopGamesAnswer(rows: seq<GameRow>, y: real)
    requires exists x :: x in rows && x.release as real == y
    ensures TopGamesByPlaytime(rows, Numeric(y)) == Table(Project(TopGameRows(rows, y)))
  {
    var x0 :| x0 in rows && x0.release as real == y;
    assert x0 in GamesOfYear(rows, y);
    GameYearPresent(rows, y);
  }

  /** The kept rows: five of the year (fewer only when the year has fewer), by
      non-increasing playtime, and no row of the year left out has more. */
  lemma TopGameRowsSpec(rows: seq<GameRow>, y: real)
    ensures var year := GamesOfYear(rows, y);
      var kept := TopGameRows(rows, y);
      && |kept| == (if |year| <= 5 then |year| else 5)
      && (forall g :: g in kept ==> g in rows && g.release as real == y)
      && (forall k, l :: 0 <= k < l < |kept| ==> kept[k].playtime >= kept[l].playtime)
      && (forall x, g :: x in multiset(year) - multiset(kept) && g in kept ==> g.playtime >= x.playtime)
  {
    TopByPlaytime(GamesOfYear(rows, y), 5);
  }


  /** Every failure, as a value, for the bottom-three query: besides the two
      shared ones, a year whose rows all have zero playtime is refused with
      the "playtime greater than 0" message. */
  lemma BottomGamesErrors(rows: seq<GameRow>, arg: YearArg)
    ensures var r := BottomGamesByPlaytime(rows, arg);
      && (r == Message(InvalidInput) <==> arg.NotNumeric?)
      && (arg.Numeric? ==>
            && (r == Message(NoDataForYear(arg.year)) <==> forall x :: x in rows ==> x.release as real != arg.year)
            && (r == Message(NoPositivePlaytime(arg.year)) <==>
                  (exists x :: x in rows && x.release as real == arg.year) &&
                  (forall x :: x in rows && x.release as real == arg.year ==> x.playtime <= 0.0)))
      && (r.Table? <==> arg.Numeric? && exists x :: x in rows && x.release as real == arg.year && x.playtime > 0.0)
  {
    if arg.Numeric? {
      var y := arg.year;
      GameYearPresent(rows, y);
      if GamesOfYear(rows, y) != [] {
        assert GamesOfYear(rows, y)[0] in GamesOfYear(rows, y);
      }
      if PositiveGamesOfYear(rows, y) != [] {
        assert PositiveGamesOfYear(rows, y)[0] in PositiveGamesOfYear(rows, y);
      }
    }
  }

  /** With a positive row in the year, the answer is the projection of the kept rows. */
  lemma BottomGamesAnswer(rows: seq<GameRow>, y: real)
    requires exists x :: x in rows && x.release as real == y && x.playtime > 0.0
    ensures BottomGamesByPlaytime(rows, Numeric(y)) == Table(Project(BottomGameRows(rows, y)))
  {
    var x0 :| x0 in rows && x0.release as real == y && x0.playtime > 0.0;
    assert x0 in PositiveGamesOfYear(rows, y);
    assert x0 in GamesOfYear(rows, y);
    GameYearPresent(rows, y);
  }

  /** The kept rows: three of the year with positive playtime (fewer only when
      there are fewer), by non-decreasing playtime, and no such row left out
      has less. */
  lemma BottomGameRowsSpec(rows: seq<GameRow>, y: real)
    ensures var positive := PositiveGamesOfYear(rows, y);
      var kept := BottomGameRows(rows, y);
      && |kept| == (if |positive| <= 3 then |positive| else 3)
      && (forall g :: g in kept ==> g in rows && g.release as real == y && g.playtime > 0.0)
      && (forall k, l :: 0 <= k < l < |kept| ==> kept[k].playtime <= kept[l].playtime)
      && (forall x, g :: x in multiset(positive) - multiset(kept) && g in kept ==> g.playtime <= x.playtime)
  {
    BottomByPlaytime(PositiveGamesOfYear(rows, y), 3);
  }

}
