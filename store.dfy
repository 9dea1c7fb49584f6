/** The in-memory tables the queries read, and what the queries return.

    The source loads these tables once, at import time, as module globals; here
    each query takes the tables it reads as parameters. */
module Store {
  import opened Basics
  import opened Sorting

  /** A row of the game table `df_mf`: one game may have several rows (one per
      genre or review), so `name` is not a key. */
  datatype GameRecord = GameRecord(name: string, genres: string, rating: real, ranking: real, review: Option<string>)

  /** The columns both recommenders display. */
  datatype Display = Display(name: string, genres: string, rating: real, ranking: real)

  function ToDisplay(g: GameRecord): Display {
    Display(g.name, g.genres, g.rating, g.ranking)
  }

  /** A name paired with a score: a pandas Series indexed by name. */
  datatype Scored = Scored(name: string, score: real)

  /** Descending by score. */
  function ScoreDesc(a: Scored, b: Scored): bool { a.score >= b.score }

  lemma ScoreDescOrder()
    ensures TotalPreorder(ScoreDesc)
  {
  }

  /** `Top` by descending score, its facts stated on the scores. */
  lemma TopByScore(s: seq<Scored>, n: nat)
    ensures var top := Top(s, n, ScoreDesc);
      && (forall k, l :: 0 <= k < l < |top| ==> top[k].score >= top[l].score)
      && (forall y, x :: y in top && x in multiset(s) - multiset(top) ==> y.score >= x.score)
  {
    var top := Top(s, n, ScoreDesc);
    assert SortedBy(top, ScoreDesc) &&
      forall y, x :: y in top && x in multiset(s) - multiset(top) ==> ScoreDesc(y, x)
    by {
      ScoreDescOrder();
      TopDominates(s, n, ScoreDesc);
    }
    forall k, l | 0 <= k < l < |top| ensures top[k].score >= top[l].score {
      assert ScoreDesc(top[k], top[l]);
    }
    forall y, x | y in top && x in multiset(s) - multiset(top) ensures y.score >= x.score {
      assert ScoreDesc(y, x);
    }
  }

  function Names(s: seq<Scored>): (r: seq<string>)
    ensures |r| == |s|
    ensures forall i :: 0 <= i < |s| ==> r[i] == s[i].name
  {
    if s == [] then [] else [s[0].name] + Names(s[1..])
  }

  /** Every listed name is the name of an entry. */
  lemma NamesIn(s: seq<Scored>)
    ensures forall n :: n in Names(s) ==> exists x :: x in s && x.name == n
  {
    forall n | n in Names(s) ensures exists x :: x in s && x.name == n {
      var k :| 0 <= k < |s| && Names(s)[k] == n;
      assert s[k] in s;
    }
  }

  /** An entry whose name is not listed is not among the entries. */
  lemma NameNotListed(s: seq<Scored>, x: Scored)
    requires x.name !in Names(s)
    ensures x !in multiset(s)
  {
    assert forall k :: 0 <= k < |s| ==> s[k].name == Names(s)[k];
  }

  /** Among entries with distinct names, every kept entry scores at least as
      high as every entry whose name was not kept. */
  lemma TopNamesDominate(all: seq<Scored>, n: nat)
    requires NoDup(Names(all))
    ensures var top := Top(all, n, ScoreDesc);
      forall y, x :: y in top && x in all && x.name !in Names(top) ==> y.score >= x.score
  {
    var top := Top(all, n, ScoreDesc);
    TopByScore(all, n);
    forall y, x | y in top && x in all && x.name !in Names(top) ensures y.score >= x.score {
      assert x !in top by {
        forall k | 0 <= k < |top| ensures top[k] != x {
          assert Names(top)[k] == top[k].name;
        }
      }
      assert x in multiset(all) - multiset(top);
    }
  }

  /** A square similarity matrix indexed by name on both axes:
      `cells[i][j]` is the similarity between `names[i]` and `names[j]`. */
  datatype SimMatrix = SimMatrix(names: seq<string>, cells: seq<seq<real>>)

  ghost predicate WellFormed(m: SimMatrix) {
    && |m.cells| == |m.names|
    && (forall i :: 0 <= i < |m.cells| ==> |m.cells[i]| == |m.names|)
    && NoDup(m.names)
  }

  /** The failures the queries return as values (the source returns a message
      string, or a one-entry dict whose key is the message). */
  datatype QueryError =
    | InvalidInput                 // "Invalid input. Please provide a numeric year."
    | NoDataForYear(year: real)    // "There is no data available for the year {year}"
    | EmptyYear(year: real)        // "No data available for year {year}"
    | NoPositivePlaytime(year: real) // "No data available for year {year} with playtime greater than 0"
    | UnknownGame(name: string)    // "No recommendations available for the game '{name}'."
    | UnknownUser(user: string)    // "No data available on user {user}"

  datatype Answer<T> = Table(rows: T) | Message(error: QueryError)

  /** The games whose name is in `names`, in table order (`isin`). */
  function Named(games: seq<GameRecord>, names: seq<string>): (r: seq<GameRecord>)
    ensures forall g :: g in r <==> g in games && g.name in names
    ensures |r| <= |games|
  {
    if games == [] then []
    else if games[0].name in names then [games[0]] + Named(games[1..], names)
    else Named(games[1..], names)
  }

  function DisplayRows(games: seq<GameRecord>): (r: seq<Display>)
    ensures |r| == |games|
    ensures forall i :: 0 <= i < |games| ==> r[i] == ToDisplay(games[i])
  {
    if games == [] then [] else [ToDisplay(games[0])] + DisplayRows(games[1..])
  }

  /** The display rows of the games whose name is in `names`:
      `df_mf[df_mf['Item_name'].isin(names)][[...]].drop_duplicates().reset_index(drop=True)`. */
  function JoinDisplay(games: seq<GameRecord>, names: seq<string>): (r: seq<Display>)
    ensures |r| <= |games|
  {
    KeepFirst(DisplayRows(Named(games, names)), Id, {})
  }

  /** Every row of the join is the display row of a game named in `names`. */
  lemma JoinDisplaySound(games: seq<GameRecord>, names: seq<string>)
    ensures forall d :: d in JoinDisplay(games, names) ==>
      d.name in names && exists g :: g in games && ToDisplay(g) == d
  {
    var matching := Named(games, names);
    var rows := DisplayRows(matching);
    forall d | d in JoinDisplay(games, names)
      ensures d.name in names && exists g :: g in games && ToDisplay(g) == d
    {
      var i :| 0 <= i < |rows| && rows[i] == d;
      assert matching[i] in matching;
    }
  }

  /** Every game named in `names` has its display row in the join, and no row
      is listed twice. */
  lemma JoinDisplayComplete(games: seq<GameRecord>, names: seq<string>)
    ensures forall g :: g in games && g.name in names ==> ToDisplay(g) in JoinDisplay(games, names)
    ensures NoDup(JoinDisplay(games, names))
  {
    var matching := Named(games, names);
    var rows := DisplayRows(matching);
    var r := JoinDisplay(games, names);
    KeepFirstKeysDistinct(rows, Id, {});
    KeepFirstCovers(rows, Id, {});
    forall g | g in games && g.name in names ensures ToDisplay(g) in r {
      var i :| 0 <= i < |matching| && matching[i] == g;
      assert rows[i] in rows && Id(rows[i]) !in {};
      var y :| y in r && Id(y) == Id(rows[i]);
    }
    forall i, j | 0 <= i < j < |r| ensures r[i] != r[j] {
      assert Id(r[i]) != Id(r[j]);
    }
  }

  /** The join lists its rows in the order in which they first occur in the
      game table, not in the order of `names`. */
  lemma JoinDisplayOrder(games: seq<GameRecord>, names: seq<string>)
    ensures InFirstOccurrenceOrder(JoinDisplay(games, names), DisplayRows(Named(games, names)))
  {
    KeepFirstOrder(DisplayRows(Named(games, names)), {});
  }
}
