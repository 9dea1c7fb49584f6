/** The user-collaborative recommender, `similar_user_recs`
    (functions.py:151-186).

    The users most similar to the given one are read off the user-user
    similarity table (positions 1 to 10 of its column sorted by descending
    similarity; position 0 is taken to be the user themself). For each of
    those neighbours every item holding that neighbour's highest normalised
    rating is collected, ties included; the collected items are tallied in a
    dictionary, the tally is sorted by count with Python's stable `sorted`,
    and the game table is joined back on the five items ranked first. */
module UserRecs {
  import opened Basics
  import opened Sorting
  import opened Store

  /** `umatrix_norm`: one row per item, one column per user; `cells[i][c]` is
      the normalised rating of `items[i]` by `users[c]`, `None` when missing. */
  datatype RatingMatrix = RatingMatrix(items: seq<string>, users: seq<string>, cells: seq<seq<Option<real>>>)

  ghost predicate RatingsWellFormed(r: RatingMatrix) {
    && |r.cells| == |r.items|
    && (forall i :: 0 <= i < |r.cells| ==> |r.cells[i]| == |r.users|)
    && NoDup(r.users)
  }

  /** The two tables know the same users: every user of the rating table can
      be looked up in the similarity table, and every neighbour found there is
      a column of the rating table. */
  ghost predicate Consistent(r: RatingMatrix, s: SimMatrix) {
    && RatingsWellFormed(r)
    && WellFormed(s)
    && (forall n :: n in s.names <==> n in r.users)
  }

  /* ---------- the neighbours ---------- */

  /** Column `u` of the similarity table, as a Series indexed by user. */
  function Similarities(s: SimMatrix, u: nat): (r: seq<Scored>)
    requires WellFormed(s) && u < |s.names|
    ensures |r| == |s.names|
    ensures forall i :: 0 <= i < |r| ==> r[i] == Scored(s.names[i], s.cells[i][u])
  {
    seq(|s.names|, i requires 0 <= i < |s.names| => Scored(s.names[i], s.cells[i][u]))
  }

  /** The similarity of user `n` to user `u`. */
  function Similarity(s: SimMatrix, u: nat, n: string): real
    requires WellFormed(s) && u < |s.names| && n in s.names
  {
    s.cells[IndexOf(s.names, n)][u]
  }

  /** The first eleven entries of the column by descending similarity. */
  function NeighbourTop(s: SimMatrix, u: nat): (r: seq<Scored>)
    requires WellFormed(s) && u < |s.names|
    ensures 1 <= |r| == (if |s.names| <= 11 then |s.names| else 11)
  {
    Top(Similarities(s, u), 11, ScoreDesc)
  }

  /** `user_sim_df.sort_values(by=user, ascending=False).index[1:11]`. */
  function Neighbours(s: SimMatrix, u: nat): (r: seq<string>)
    requires WellFormed(s) && u < |s.names|
    ensures forall n :: n in r ==> n in s.names
  {
    var top := NeighbourTop(s, u);
    var r := Names(top[1..]);
    assert forall k :: 0 <= k < |r| ==> r[k] in s.names by {
      forall k | 0 <= k < |r| ensures r[k] in s.names {
        assert top[k + 1] in multiset(Similarities(s, u));
      }
    }
    r
  }

  /* ---------- the best items of one neighbour ---------- */

  function Column(r: RatingMatrix, c: nat): (col: seq<Option<real>>)
    requires RatingsWellFormed(r) && c < |r.users|
    ensures |col| == |r.items|
    ensures forall i :: 0 <= i < |col| ==> col[i] == r.cells[i][c]
  {
    seq(|r.items|, i requires 0 <= i < |r.items| => r.cells[i][c])
  }

  /** `Series.max()`, skipping missing values; `None` when all are missing. */
  function MaxOf(col: seq<Option<real>>): (m: Option<real>)
    ensures m.None? <==> forall i :: 0 <= i < |col| ==> col[i].None?
    ensures m.Some? ==> exists i :: 0 <= i < |col| && col[i] == m
    ensures m.Some? ==> forall i :: 0 <= i < |col| && col[i].Some? ==> col[i].value <= m.value
  {
    if col == [] then None
    else
      var rest := MaxOf(col[1..]);
      assert forall i :: 1 <= i < |col| ==> col[i] == col[1..][i - 1];
      match col[0]
      case None => rest
      case Some(v) => if rest.Some? && rest.value > v then rest else Some(v)
  }

  /** The items whose cell holds `m`, in row order. */
  function Matching(items: seq<string>, col: seq<Option<real>>, m: real): (r: seq<string>)
    requires |items| == |col|
    ensures forall x :: x in r <==> exists i :: 0 <= i < |items| && items[i] == x && col[i] == Some(m)
  {
    if items == [] then []
    else
      assert forall i :: 1 <= i < |items| ==> items[i] == items[1..][i - 1] && col[i] == col[1..][i - 1];
      (if col[0] == Some(m) then [items[0]] else []) + Matching(items[1..], col[1..], m)
  }

  /** `umatrix_norm[umatrix_norm.loc[:, i] == max_score].index.tolist()`: a
      column whose cells are all missing has no maximum, and no item equals it. */
  function BestItems(r: RatingMatrix, c: nat): (b: seq<string>)
    requires RatingsWellFormed(r) && c < |r.users|
    ensures forall x :: x in b ==> x in r.items
    ensures (forall i :: 0 <= i < |r.items| ==> r.cells[i][c].None?) ==> b == []
  {
    match MaxOf(Column(r, c))
    case None => []
    case Some(m) => Matching(r.items, Column(r, c), m)
  }

  /** An item is collected for a neighbour exactly when one of its rows holds
      a rating of that neighbour that no other rating of theirs exceeds. */
  lemma BestItemsAttainMax(r: RatingMatrix, c: nat)
    requires RatingsWellFormed(r) && c < |r.users|
    ensures forall x :: x in BestItems(r, c) <==>
      exists i :: 0 <= i < |r.items| && r.items[i] == x && r.cells[i][c].Some? &&
        forall j :: 0 <= j < |r.items| && r.cells[j][c].Some? ==> r.cells[j][c].value <= r.cells[i][c].value
  {
    forall x ensures x in BestItems(r, c) <==>
      exists i :: 0 <= i < |r.items| && r.items[i] == x && r.cells[i][c].Some? &&
        forall j :: 0 <= j < |r.items| && r.cells[j][c].Some? ==> r.cells[j][c].value <= r.cells[i][c].value
    {
      if x in BestItems(r, c) {
        BestItemIsMax(r, c, x);
      }
      if exists i :: 0 <= i < |r.items| && r.items[i] == x && r.cells[i][c].Some? &&
          forall j :: 0 <= j < |r.items| && r.cells[j][c].Some? ==> r.cells[j][c].value <= r.cells[i][c].value
      {
        var i :| 0 <= i < |r.items| && r.items[i] == x && r.cells[i][c].Some? &&
          forall j :: 0 <= j < |r.items| && r.cells[j][c].Some? ==> r.cells[j][c].value <= r.cells[i][c].value;
        MaxIsBestItem(r, c, i);
      }
    }
  }

  /** A collected item holds a rating no other rating of the neighbour exceeds. */
  lemma BestItemIsMax(r: RatingMatrix, c: nat, x: string)
    requires RatingsWellFormed(r) && c < |r.users| && x in BestItems(r, c)
    ensures exists i :: (0 <= i < |r.items| && r.items[i] == x && r.cells[i][c].Some? &&
      forall j :: 0 <= j < |r.items| && r.cells[j][c].Some? ==> r.cells[j][c].value <= r.cells[i][c].value)
  {
    var col := Column(r, c);
    var m := MaxOf(col);
    var i :| 0 <= i < |r.items| && r.items[i] == x && col[i] == Some(m.value);
    assert r.cells[i][c] == Some(m.value);
  }

  /** An item holding a rating no other rating exceeds is collected. */
  lemma MaxIsBestItem(r: RatingMatrix, c: nat, i: nat)
    requires RatingsWellFormed(r) && c < |r.users| && i < |r.items| && r.cells[i][c].Some?
    requires forall j :: 0 <= j < |r.items| && r.cells[j][c].Some? ==> r.cells[j][c].value <= r.cells[i][c].value
    ensures r.items[i] in BestItems(r, c)
  {
    var col := Column(r, c);
    var m := MaxOf(col);
    assert col[i].Some?;
    var w :| 0 <= w < |col| && col[w] == m;
    assert r.cells[w][c].value <= r.cells[i][c].value;
    assert col[i] == Some(m.value);
  }

  /** Each neighbour's best items, neighbour by neighbour. */
  function BestLists(r: RatingMatrix, ns: seq<string>): (ls: seq<seq<string>>)
    requires RatingsWellFormed(r) && forall n :: n in ns ==> n in r.users
    ensures |ls| == |ns|
    ensures forall k :: 0 <= k < |ns| ==> ls[k] == BestItems(r, IndexOf(r.users, ns[k]))
  {
    seq(|ns|, k requires 0 <= k < |ns| => BestItems(r, IndexOf(r.users, ns[k])))
  }

  /** `best` after the loop. */
  function BestOf(r: RatingMatrix, ns: seq<string>): (b: seq<string>)
    requires RatingsWellFormed(r) && forall n :: n in ns ==> n in r.users
    ensures forall x :: x in b ==> x in r.items
  {
    var ls := BestLists(r, ns);
    assert forall x :: x in Concat(ls) ==> x in r.items by {
      forall x | x in Concat(ls) ensures x in r.items {
        ConcatMembers(ls, x);
      }
    }
    Concat(ls)
  }

  /** An item is collected exactly when it is a best item of some neighbour. */
  lemma BestOfSpec(r: RatingMatrix, ns: seq<string>)
    requires RatingsWellFormed(r) && forall n :: n in ns ==> n in r.users
    ensures forall x :: x in BestOf(r, ns) <==>
      exists k :: 0 <= k < |ns| && x in BestItems(r, IndexOf(r.users, ns[k]))
  {
    var ls := BestLists(r, ns);
    forall x ensures x in BestOf(r, ns) <==> exists k :: 0 <= k < |ns| && x in BestItems(r, IndexOf(r.users, ns[k])) {
      ConcatMembers(ls, x);
      if exists k :: 0 <= k < |ls| && x in ls[k] {
        var k :| 0 <= k < |ls| && x in ls[k];
        assert x in BestItems(r, IndexOf(r.users, ns[k]));
      }
      if exists k :: 0 <= k < |ns| && x in BestItems(r, IndexOf(r.users, ns[k])) {
        var k :| 0 <= k < |ns| && x in BestItems(r, IndexOf(r.users, ns[k]));
        assert x in ls[k];
      }
    }
  }

  /** The loop at lines 170-172: `best.extend(...)` for every neighbour. */
  method CollectBest(r: RatingMatrix, ns: seq<string>) returns (best: seq<string>)
    requires RatingsWellFormed(r) && forall n :: n in ns ==> n in r.users
    ensures best == BestOf(r, ns)
  {
    ghost var ls := BestLists(r, ns);
    best := [];
    var i := 0;
    while i < |ns|
      invariant 0 <= i <= |ns|
      invariant best == Concat(ls[..i])
    {
      assert ls[..i + 1][..i] == ls[..i];
      assert Concat(ls[..i + 1]) == Concat(ls[..i]) + ls[i];
      best := best + BestItems(r, IndexOf(r.users, ns[i]));
      i := i + 1;
    }
    assert ls[..i] == ls;
  }

  /* ---------- the tally ---------- */

  /** An entry of `most_common.items()`: an item and how often it was collected. */
  datatype Tally = Tally(item: string, count: nat)

  /** `key=operator.itemgetter(1), reverse=True`. */
  function CountDesc(a: Tally, b: Tally): bool { a.count >= b.count }

  lemma CountDescOrder() ensures TotalPreorder(CountDesc) {}

  /** `most_common.items()` once the loop is done: the distinct items of
      `best` in the order they were first inserted, each with its count. */
  function Tallies(best: seq<string>): (r: seq<Tally>)
    ensures |r| == |KeepFirst(best, Id, {})|
    ensures forall k :: 0 <= k < |r| ==>
      r[k] == Tally(KeepFirst(best, Id, {})[k], Count(best, KeepFirst(best, Id, {})[k]))
  {
    var order := KeepFirst(best, Id, {});
    seq(|order|, k requires 0 <= k < |order| => Tally(order[k], Count(best, order[k])))
  }

  function Items(ts: seq<Tally>): (r: seq<string>)
    ensures |r| == |ts|
    ensures forall k :: 0 <= k < |ts| ==> r[k] == ts[k].item
  {
    if ts == [] then [] else [ts[0].item] + Items(ts[1..])
  }

  /** The loop at lines 174-175. The dictionary is the map `counts` together
      with `order`, its keys in insertion order. */
  method TallyItems(best: seq<string>) returns (counts: map<string, nat>, order: seq<string>)
    ensures order == KeepFirst(best, Id, {})
    ensures forall x :: x in counts <==> x in best
    ensures forall x :: x in counts ==> counts[x] == Count(best, x)
  {
    counts := map[];
    order := [];
    var j := 0;
    ghost var done: seq<string> := [];
    while j < |best|
      invariant 0 <= j <= |best| && done == best[..j]
      invariant order == KeepFirst(done, Id, {})
      invariant forall x :: x in counts <==> x in done
      invariant forall x :: x in counts ==> counts[x] == Count(done, x)
    {
      var x := best[j];
      assert best[..j + 1] == best[..j] + [best[j]];
      assert order + (if x in done then [] else [x]) == KeepFirst(done + [x], Id, {}) by {
        KeepFirstSnoc(done, x, {});
      }
      var c := if x in counts then counts[x] else 0;
      if x !in counts {
        order := order + [x];
      }
      TallyStep(counts, done, x);
      counts := counts[x := c + 1];
      done := done + [x];
      j := j + 1;
    }
    assert done == best;
  }

  /** One step of the tally loop: bumping the count of `x` keeps the map
      equal to the counts of the prefix extended by `x`. */
  lemma TallyStep(counts: map<string, nat>, done: seq<string>, x: string)
    requires forall y :: y in counts <==> y in done
    requires forall y :: y in counts ==> counts[y] == Count(done, y)
    ensures var bumped := counts[x := (if x in counts then counts[x] else 0) + 1];
      && (forall y :: y in bumped <==> y in done + [x])
      && (forall y :: y in bumped ==> bumped[y] == Count(done + [x], y))
  {
    assert multiset(done + [x]) == multiset(done) + multiset{x};
    forall y ensures y in done + [x] <==> y in done || y == x {
    }
  }

  /** Each collected item has one entry, holding how often it was collected,
      and the entries follow the items' first occurrence in `best`. */
  lemma TalliesSpec(best: seq<string>)
    ensures var ts := Tallies(best);
      && NoDup(Items(ts))
      && (forall x :: x in Items(ts) <==> x in best)
      && (forall t :: t in ts ==> t.count == Count(best, t.item) && t.count >= 1)
      && InFirstOccurrenceOrder(Items(ts), best)
  {
    var order := KeepFirst(best, Id, {});
    var ts := Tallies(best);
    assert Items(ts) == order;
    assert NoDup(order) by {
      KeepFirstKeysDistinct(best, Id, {});
      forall i, j | 0 <= i < j < |order| ensures order[i] != order[j] {
        assert Id(order[i]) != Id(order[j]);
      }
    }
    forall x | x in best ensures x in order {
      KeepFirstCovers(best, Id, {});
      var y :| y in order && Id(y) == Id(x);
    }
    forall t | t in ts ensures t.count == Count(best, t.item) && t.count >= 1 {
      var k :| 0 <= k < |ts| && ts[k] == t;
      assert order[k] in order;
      assert order[k] in best;
    }
    assert InFirstOccurrenceOrder(order, best) by {
      KeepFirstOrder(best, {});
    }
  }

  /* ---------- the ranking ---------- */

  /** `sorted(..., reverse=True)[:5]`. */
  function Ranking(best: seq<string>): (r: seq<Tally>)
    ensures |r| <= 5
    ensures forall t :: t in r ==> t.item in best && t.count == Count(best, t.item)
  {
    TopIn(Tallies(best), 5, CountDesc);
    Top(Tallies(best), 5, CountDesc)
  }

  /** `Top` by descending count, its facts stated on the counts. */
  lemma TopByCount(ts: seq<Tally>, n: nat)
    ensures var top := Top(ts, n, CountDesc);
      && (forall k, l :: 0 <= k < l < |top| ==> top[k].count >= top[l].count)
      && (forall y, x :: y in top && x in ts && x !in top ==> y.count >= x.count)
  {
    var top := Top(ts, n, CountDesc);
    assert SortedBy(top, CountDesc) &&
      forall y, x :: y in top && x in multiset(ts) - multiset(top) ==> CountDesc(y, x)
    by {
      CountDescOrder();
      TopDominates(ts, n, CountDesc);
    }
    forall k, l | 0 <= k < l < |top| ensures top[k].count >= top[l].count {
      assert CountDesc(top[k], top[l]);
    }
    forall y, x | y in top && x in ts && x !in top ensures y.count >= x.count {
      assert x in multiset(ts) - multiset(top);
      assert CountDesc(y, x);
    }
  }

  /** At most five entries, by non-increasing count, and no entry left out
      has a higher count than one kept. */
  lemma RankingOrder(best: seq<string>)
    ensures var ts := Tallies(best);
      var top := Ranking(best);
      && |top| == (if |ts| <= 5 then |ts| else 5)
      && (forall k, l :: 0 <= k < l < |top| ==> top[k].count >= top[l].count)
      && (forall y, x :: y in top && x in ts && x !in top ==> y.count >= x.count)
  {
    TopByCount(Tallies(best), 5);
  }

  /** Entries with the same count as `c` keep their order in the tally, that
      is the order in which their items first occur in `best`. */
  lemma RankingTies(best: seq<string>, c: Tally)
    ensures TiedWith(Ranking(best), c, CountDesc) <= TiedWith(Tallies(best), c, CountDesc)
  {
    CountDescOrder();
    TopTiedPrefix(Tallies(best), 5, c, CountDesc);
  }

  /* ---------- the query ---------- */

  /** `similar_user_recs(user)`, as a function of its tables. */
  function UserRecommendations(games: seq<GameRecord>, r: RatingMatrix, s: SimMatrix, user: string): (ans: Answer<seq<Display>>)
    requires Consistent(r, s)
    ensures ans.Message? <==> user !in r.users
    ensures ans.Message? ==> ans.error == UnknownUser(user)
  {
    if user !in r.users then Message(UnknownUser(user))
    else
      var ns := Neighbours(s, IndexOf(s.names, user));
      Table(JoinDisplay(games, Items(Ranking(BestOf(r, ns)))))
  }

  /** `similar_user_recs(user)`: the two loops, then the sort, the cut to five
      and the join. */
  method SimilarUserRecs(games: seq<GameRecord>, r: RatingMatrix, s: SimMatrix, user: string)
    returns (ans: Answer<seq<Display>>)
    requires Consistent(r, s)
    ensures ans == UserRecommendations(games, r, s, user)
  {
    if user !in r.users {
      return Message(UnknownUser(user));
    }
    var simUsers := Neighbours(s, IndexOf(s.names, user));
    var best := CollectBest(r, simUsers);
    var topItems := RankItems(best);
    ans := Table(JoinDisplay(games, topItems));
  }

  /** Lines 174-181: tally `best`, sort the tally by count and keep the
      items of the first five entries. */
  method RankItems(best: seq<string>) returns (topItems: seq<string>)
    ensures topItems == Items(Ranking(best))
  {
    var counts, order := TallyItems(best);
    var pairs := seq(|order|, k requires 0 <= k < |order| => Tally(order[k], counts[order[k]]));
    assert pairs == Tallies(best);
    var sortedList := SortBy(pairs, CountDesc);
    topItems := Items(Take(sortedList, 5));
  }

  /* ---------- what the query promises ---------- */

  /** An unknown user is refused with a message naming them; otherwise the
      table holds exactly the display rows of at most five ranked items. */
  lemma UserRecommendationsSpec(games: seq<GameRecord>, r: RatingMatrix, s: SimMatrix, user: string)
    requires Consistent(r, s)
    ensures var ans := UserRecommendations(games, r, s, user);
      && (ans.Message? <==> user !in r.users)
      && (ans.Message? ==> ans.error == UnknownUser(user))
      && (ans.Table? ==>
            var items := Items(Ranking(BestOf(r, Neighbours(s, IndexOf(s.names, user)))));
            && |items| <= 5
            && NoDup(ans.rows)
            && (forall d :: d in ans.rows ==> d.name in items)
            && (forall g :: g in games && g.name in items ==> ToDisplay(g) in ans.rows))
  {
    if user in r.users {
      var items := Items(Ranking(BestOf(r, Neighbours(s, IndexOf(s.names, user)))));
      JoinDisplaySound(games, items);
      JoinDisplayComplete(games, items);
    }
  }

  /** Each of the first eleven entries is a user with their similarity, and
      no user appears twice. */
  lemma NeighbourTopEntries(s: SimMatrix, u: nat)
    requires WellFormed(s) && u < |s.names|
    ensures var top := NeighbourTop(s, u);
      && NoDup(Names(top))
      && (forall k :: 0 <= k < |top| ==> top[k].name in s.names && top[k].score == Similarity(s, u, top[k].name))
  {
    var all := Similarities(s, u);
    var top := NeighbourTop(s, u);
    forall k | 0 <= k < |top| ensures top[k].name in s.names && top[k].score == Similarity(s, u, top[k].name) {
      NeighbourTopEntry(s, u, k);
    }
    assert NoDup(top) by {
      assert NoDup(all) by {
        forall i, j | 0 <= i < j < |all| ensures all[i] != all[j] {
          assert all[i].name == s.names[i] && all[j].name == s.names[j];
        }
      }
      SubMultisetNoDup(top, all);
    }
    forall k, l | 0 <= k < l < |top| ensures Names(top)[k] != Names(top)[l] {
      assert top[k] != top[l];
    }
  }

  /** One of the first eleven entries is a user with their similarity. */
  lemma NeighbourTopEntry(s: SimMatrix, u: nat, k: nat)
    requires WellFormed(s) && u < |s.names| && k < |NeighbourTop(s, u)|
    ensures NeighbourTop(s, u)[k].name in s.names
    ensures NeighbourTop(s, u)[k].score == Similarity(s, u, NeighbourTop(s, u)[k].name)
  {
    var all := Similarities(s, u);
    var top := NeighbourTop(s, u);
    assert top[k] in multiset(all);
    var i :| 0 <= i < |all| && all[i] == top[k];
    IndexOfNoDup(s.names, i);
  }

  /** The neighbours are the names of the first eleven after the first. */
  lemma NeighboursTail(s: SimMatrix, u: nat)
    requires WellFormed(s) && u < |s.names|
    ensures |Neighbours(s, u)| == |NeighbourTop(s, u)| - 1
    ensures forall k :: 0 <= k < |Neighbours(s, u)| ==> Neighbours(s, u)[k] == NeighbourTop(s, u)[k + 1].name
  {
  }

  lemma NeighboursNoDup(s: SimMatrix, u: nat)
    requires WellFormed(s) && u < |s.names|
    ensures NoDup(Neighbours(s, u))
  {
    var top := NeighbourTop(s, u);
    var ns := Neighbours(s, u);
    NeighboursTail(s, u);
    NeighbourTopEntries(s, u);
    forall k, l | 0 <= k < l < |ns| ensures ns[k] != ns[l] {
      assert Names(top)[k + 1] == ns[k] && Names(top)[l + 1] == ns[l];
    }
  }

  lemma NeighboursOrdered(s: SimMatrix, u: nat)
    requires WellFormed(s) && u < |s.names|
    ensures var ns := Neighbours(s, u);
      forall k, l :: 0 <= k < l < |ns| ==> Similarity(s, u, ns[k]) >= Similarity(s, u, ns[l])
  {
    var top := NeighbourTop(s, u);
    var ns := Neighbours(s, u);
    NeighboursTail(s, u);
    assert forall k :: 0 <= k < |top| ==> top[k].score == Similarity(s, u, top[k].name) by {
      NeighbourTopEntries(s, u);
    }
    assert forall k, l :: 0 <= k < l < |top| ==> top[k].score >= top[l].score by {
      TopByScore(Similarities(s, u), 11);
    }
    forall k, l | 0 <= k < l < |ns| ensures Similarity(s, u, ns[k]) >= Similarity(s, u, ns[l]) {
      assert top[k + 1].score >= top[l + 1].score;
    }
  }

  /** At most ten neighbours (exactly ten when there are eleven users or
      more), all users, none twice, by non-increasing similarity. */
  lemma NeighboursShape(s: SimMatrix, u: nat)
    requires WellFormed(s) && u < |s.names|
    ensures var ns := Neighbours(s, u);
      && |ns| == (if |s.names| <= 11 then |s.names| - 1 else 10)
      && NoDup(ns)
      && (forall k, l :: 0 <= k < l < |ns| ==> Similarity(s, u, ns[k]) >= Similarity(s, u, ns[l]))
  {
    NeighboursTail(s, u);
    NeighboursNoDup(s, u);
    NeighboursOrdered(s, u);
  }

  /** Every user outside the first eleven is no more similar than any
      neighbour. */
  lemma NeighboursDominate(s: SimMatrix, u: nat)
    requires WellFormed(s) && u < |s.names|
    ensures var ns := Neighbours(s, u);
      forall k, i :: 0 <= k < |ns| && 0 <= i < |s.names| && s.names[i] !in Names(NeighbourTop(s, u)) ==>
        Similarity(s, u, ns[k]) >= s.cells[i][u]
  {
    var all := Similarities(s, u);
    var top := NeighbourTop(s, u);
    var ns := Neighbours(s, u);
    assert NoDup(Names(all)) by {
      assert Names(all) == s.names;
    }
    forall k, i | 0 <= k < |ns| && 0 <= i < |s.names| && s.names[i] !in Names(top)
      ensures Similarity(s, u, ns[k]) >= s.cells[i][u]
    {
      NeighboursTail(s, u);
      NeighbourTopEntry(s, u, k + 1);
      assert top[k + 1] in top;
      assert all[i] in all && all[i].name == s.names[i];
      assert top[k + 1].score >= all[i].score by {
        TopNamesDominate(all, 11);
      }
    }
  }

  /** Position 0 is the user themself when no other user is as similar to
      them as they are to themself; then the user is not among their own
      neighbours. */
  lemma NeighboursExcludeSelf(s: SimMatrix, u: nat)
    requires WellFormed(s) && u < |s.names|
    requires forall i :: 0 <= i < |s.names| && i != u ==> s.cells[i][u] < s.cells[u][u]
    ensures NeighbourTop(s, u)[0].name == s.names[u]
    ensures s.names[u] !in Neighbours(s, u)
  {
    var top := NeighbourTop(s, u);
    var ns := Neighbours(s, u);
    SelfFirst(s, u);
    forall k | 0 <= k < |ns| ensures ns[k] != s.names[u] {
      NeighboursTail(s, u);
      assert Names(top)[k + 1] != Names(top)[0] by {
        NeighbourTopEntries(s, u);
      }
    }
  }

  /** Under the same condition, the first entry of the sorted column is the
      user themself. */
  lemma SelfFirst(s: SimMatrix, u: nat)
    requires WellFormed(s) && u < |s.names|
    requires forall i :: 0 <= i < |s.names| && i != u ==> s.cells[i][u] < s.cells[u][u]
    ensures NeighbourTop(s, u)[0].name == s.names[u]
  {
    var all := Similarities(s, u);
    var top := NeighbourTop(s, u);
    assert top[0].score >= all[u].score by {
      assert all[u] in top || all[u] in multiset(all) - multiset(top);
      TopByScore(all, 11);
      assert top[0] in top;
    }
    NeighbourTopEntry(s, u, 0);
    var i0 := IndexOf(s.names, top[0].name);
    assert top[0].score == s.cells[i0][u];
    assert all[u].score == s.cells[u][u];
    assert i0 == u;
  }
}
