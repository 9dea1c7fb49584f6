/** The item-similarity recommender, `get_recommendations_by_name`
    (functions.py:190-234).

    A game name is looked up case-insensitively in the game table, resolved to
    its canonical spelling, and located in the item-item similarity matrix.
    Every game is then scored by the dot product of its matrix row with the
    selected game's row (`game_sim_df.dot(game_row)`), which is a full
    matrix-vector product and not a read of the selected row; the selected game
    is dropped, the five highest scores are kept, and the game table is joined
    back on those names. */
module ItemRecs {
  import opened Basics
  import opened Sorting
  import opened Store

  function Dot(a: seq<real>, b: seq<real>): (r: real)
    requires |a| == |b|
    ensures (forall i :: 0 <= i < |a| ==> a[i] == 0.0) ==> r == 0.0
  {
    if a == [] then 0.0 else a[0] * b[0] + Dot(a[1..], b[1..])
  }

  /** The dot product does not depend on the order of its operands. */
  lemma {:induction false} DotCommutes(a: seq<real>, b: seq<real>)
    requires |a| == |b|
    ensures Dot(a, b) == Dot(b, a)
  {
    if a != [] {
      DotCommutes(a[1..], b[1..]);
    }
  }

  /** `score[i] = sum over j of M[i][j] * M[t][j]`: the score of `i` against
      `t` is the score of `t` against `i`. */
  function Score(m: SimMatrix, t: nat, i: nat): (r: real)
    requires WellFormed(m) && t < |m.names| && i < |m.names|
    ensures r == Dot(m.cells[t], m.cells[i])
  {
    DotCommutes(m.cells[i], m.cells[t]);
    Dot(m.cells[i], m.cells[t])
  }

  /** The Series `game_sim_df.dot(game_row)`: every game with its score. */
  function Scores(m: SimMatrix, t: nat): (r: seq<Scored>)
    requires WellFormed(m) && t < |m.names|
    ensures |r| == |m.names|
    ensures forall i :: 0 <= i < |r| ==> r[i].name == m.names[i] && r[i].score == Score(m, t, i)
  {
    seq(|m.names|, i requires 0 <= i < |m.names| => Scored(m.names[i], Score(m, t, i)))
  }

  /** `.drop(selected_game_name)`: every entry under another name. */
  function DropName(s: seq<Scored>, name: string): (r: seq<Scored>)
    ensures forall x :: multiset(r)[x] == if x.name == name then 0 else multiset(s)[x]
  {
    if s == [] then []
    else
      assert s == [s[0]] + s[1..];
      if s[0].name == name then DropName(s[1..], name) else [s[0]] + DropName(s[1..], name)
  }

  /** The five best-scoring other games, best first:
      `dot(...).sort_values(ascending=False).drop(selected).nlargest(5)`. */
  function MostSimilarScored(m: SimMatrix, t: nat): (r: seq<Scored>)
    requires WellFormed(m) && t < |m.names|
    ensures |r| <= 5
    ensures forall x :: x in r ==> x in Scores(m, t) && x.name != m.names[t]
  {
    var ranked := SortBy(Scores(m, t), ScoreDesc);
    DropNameIn(ranked, m.names[t]);
    TopIn(DropName(ranked, m.names[t]), 5, ScoreDesc);
    Top(DropName(ranked, m.names[t]), 5, ScoreDesc)
  }

  /** Every entry left after the drop is an entry of `s` under another name. */
  lemma DropNameIn(s: seq<Scored>, name: string)
    ensures forall x :: x in DropName(s, name) ==> x in s && x.name != name
  {
    forall x | x in DropName(s, name) ensures x in s && x.name != name {
      assert multiset(DropName(s, name))[x] > 0;
      assert x in multiset(s);
    }
  }

  /** The names of the five games most similar to game `t`, never `t` itself. */
  function MostSimilar(m: SimMatrix, t: nat): (r: seq<string>)
    requires WellFormed(m) && t < |m.names|
    ensures |r| <= 5
    ensures forall n :: n in r ==> n in m.names && n != m.names[t]
  {
    NamesIn(MostSimilarScored(m, t));
    ScoresDistinct(m, t);
    Names(MostSimilarScored(m, t))
  }

  /** Every scored entry is the score of its own name, and no entry repeats. */
  lemma ScoresDistinct(m: SimMatrix, t: nat)
    requires WellFormed(m) && t < |m.names|
    ensures NoDup(Scores(m, t))
    ensures forall x :: x in Scores(m, t) ==> x.name in m.names && x == Scores(m, t)[IndexOf(m.names, x.name)]
  {
    var all := Scores(m, t);
    forall i, j | 0 <= i < j < |all| ensures all[i] != all[j] {
      assert all[i].name == m.names[i] && all[j].name == m.names[j];
    }
    forall x | x in all ensures x.name in m.names && x == all[IndexOf(m.names, x.name)] {
      var i :| 0 <= i < |all| && all[i] == x;
      assert m.names[i] == x.name;
      assert IndexOf(m.names, x.name) == i;
    }
  }

  /** Each game other than the selected one is a candidate exactly once. */
  lemma CandidateCount(m: SimMatrix, t: nat)
    requires WellFormed(m) && t < |m.names|
    ensures var all := Scores(m, t);
      var candidates := DropName(SortBy(all, ScoreDesc), m.names[t]);
      multiset(candidates) == multiset(all) - multiset{all[t]}
  {
    var all := Scores(m, t);
    var candidates := DropName(SortBy(all, ScoreDesc), m.names[t]);
    assert all[t].name == m.names[t];
    forall x ensures multiset(candidates)[x] == (multiset(all) - multiset{all[t]})[x] {
      if x.name == m.names[t] {
        assert multiset(candidates)[x] == 0;
        if x in all {
          SelectedEntry(m, t, x);
        }
      } else {
        assert x != all[t];
        assert multiset(candidates)[x] == multiset(SortBy(all, ScoreDesc))[x];
      }
    }
    assert multiset(candidates) == multiset(all) - multiset{all[t]};
  }

  /** The only entry under the selected name is the selected game's own, once. */
  lemma SelectedEntry(m: SimMatrix, t: nat, x: Scored)
    requires WellFormed(m) && t < |m.names|
    requires x in Scores(m, t) && x.name == m.names[t]
    ensures x == Scores(m, t)[t] && multiset(Scores(m, t))[x] == 1
  {
    var all := Scores(m, t);
    ScoresDistinct(m, t);
    assert IndexOf(m.names, m.names[t]) == t;
    NoDupCount(all);
  }

  /** Each kept entry is the score of a game other than the selected one, and
      no entry is kept twice. */
  lemma MostSimilarEntries(m: SimMatrix, t: nat)
    requires WellFormed(m) && t < |m.names|
    ensures var top := MostSimilarScored(m, t);
      && |top| == (if |m.names| - 1 <= 5 then |m.names| - 1 else 5)
      && NoDup(top)
      && (forall k :: 0 <= k < |top| ==>
            top[k].name in m.names && top[k].name != m.names[t] &&
            top[k] == Scores(m, t)[IndexOf(m.names, top[k].name)])
  {
    var all := Scores(m, t);
    var candidates := DropName(SortBy(all, ScoreDesc), m.names[t]);
    var top := MostSimilarScored(m, t);
    ScoresDistinct(m, t);
    CandidateCount(m, t);
    assert |multiset(candidates)| == |multiset(all)| - 1;
    assert multiset(top) <= multiset(all);
    SubMultisetNoDup(top, all);
    forall k | 0 <= k < |top|
      ensures top[k].name in m.names && top[k].name != m.names[t]
      ensures top[k] == all[IndexOf(m.names, top[k].name)]
    {
      assert top[k] in multiset(top);
    }
  }

  /** At most five names (exactly five when the matrix has six games or more),
      never the selected game, and no name twice. */
  lemma MostSimilarShape(m: SimMatrix, t: nat)
    requires WellFormed(m) && t < |m.names|
    ensures var r := MostSimilar(m, t);
      && |r| == (if |m.names| - 1 <= 5 then |m.names| - 1 else 5)
      && m.names[t] !in r
      && NoDup(r)
      && (forall k :: 0 <= k < |r| ==> r[k] in m.names)
  {
    var top := MostSimilarScored(m, t);
    var r := MostSimilar(m, t);
    assert |r| == |top|;
    assert |top| == (if |m.names| - 1 <= 5 then |m.names| - 1 else 5) by {
      MostSimilarEntries(m, t);
    }
    forall k | 0 <= k < |r| ensures r[k] in m.names && r[k] != m.names[t] {
      assert r[k] == top[k].name;
      assert top[k].name in m.names && top[k].name != m.names[t] by {
        MostSimilarEntries(m, t);
      }
    }
    forall k, l | 0 <= k < l < |r| ensures r[k] != r[l] {
      assert r[k] == top[k].name && r[l] == top[l].name;
      assert top[k] == Scores(m, t)[IndexOf(m.names, top[k].name)] by {
        MostSimilarEntries(m, t);
      }
      assert top[l] == Scores(m, t)[IndexOf(m.names, top[l].name)] by {
        MostSimilarEntries(m, t);
      }
      assert top[k] != top[l] by {
        MostSimilarEntries(m, t);
      }
    }
  }

  /** The order facts about the kept entries, on their own. */
  lemma MostSimilarOrderFacts(m: SimMatrix, t: nat)
    requires WellFormed(m) && t < |m.names|
    ensures var top := MostSimilarScored(m, t);
      var candidates := DropName(SortBy(Scores(m, t), ScoreDesc), m.names[t]);
      && (forall k, l :: 0 <= k < l < |top| ==> top[k].score >= top[l].score)
      && (forall y, x :: y in top && x in multiset(candidates) - multiset(top) ==> y.score >= x.score)
  {
    var candidates := DropName(SortBy(Scores(m, t), ScoreDesc), m.names[t]);
    TopByScore(candidates, 5);
  }

  /** The names come by non-increasing score. */
  lemma MostSimilarOrdered(m: SimMatrix, t: nat)
    requires WellFormed(m) && t < |m.names|
    ensures var r := MostSimilar(m, t);
      && (forall k :: 0 <= k < |r| ==> r[k] in m.names)
      && (forall k, l :: 0 <= k < l < |r| ==>
            Score(m, t, IndexOf(m.names, r[k])) >= Score(m, t, IndexOf(m.names, r[l])))
  {
    var top := MostSimilarScored(m, t);
    var r := MostSimilar(m, t);
    forall k | 0 <= k < |r|
      ensures r[k] in m.names && top[k].score == Score(m, t, IndexOf(m.names, r[k]))
    {
      assert r[k] == top[k].name;
      assert top[k] == Scores(m, t)[IndexOf(m.names, r[k])] by {
        MostSimilarEntries(m, t);
      }
    }
    forall k, l | 0 <= k < l < |r|
      ensures Score(m, t, IndexOf(m.names, r[k])) >= Score(m, t, IndexOf(m.names, r[l]))
    {
      assert top[k].score == Score(m, t, IndexOf(m.names, r[k]));
      assert top[l].score == Score(m, t, IndexOf(m.names, r[l]));
      assert top[k].score >= top[l].score by {
        MostSimilarOrderFacts(m, t);
      }
    }
  }

  /** Every recommended game scores at least as high as every other game that
      was not chosen. */
  lemma MostSimilarDominates(m: SimMatrix, t: nat)
    requires WellFormed(m) && t < |m.names|
    ensures var r := MostSimilar(m, t);
      && (forall k :: 0 <= k < |r| ==> r[k] in m.names)
      && (forall k, i :: 0 <= k < |r| && 0 <= i < |m.names| && i != t && m.names[i] !in r ==>
            Score(m, t, IndexOf(m.names, r[k])) >= Score(m, t, i))
  {
    var all := Scores(m, t);
    var candidates := DropName(SortBy(all, ScoreDesc), m.names[t]);
    var top := MostSimilarScored(m, t);
    var r := MostSimilar(m, t);
    forall k | 0 <= k < |r| ensures r[k] in m.names && top[k].score == Score(m, t, IndexOf(m.names, r[k])) {
      assert r[k] == top[k].name;
      assert top[k] == Scores(m, t)[IndexOf(m.names, r[k])] by {
        MostSimilarEntries(m, t);
      }
    }
    assert forall y, x :: y in top && x in multiset(candidates) - multiset(top) ==> y.score >= x.score by {
      MostSimilarOrderFacts(m, t);
    }
    forall k, i | 0 <= k < |r| && 0 <= i < |m.names| && i != t && m.names[i] !in r
      ensures Score(m, t, IndexOf(m.names, r[k])) >= Score(m, t, i)
    {
      OtherIsCandidate(m, t, i);
      NotRecommendedNotTop(m, t, i);
      assert top[k] in top;
    }
  }

  /** Every game other than the chosen one is a candidate ... */
  lemma OtherIsCandidate(m: SimMatrix, t: nat, i: nat)
    requires WellFormed(m) && t < |m.names| && i < |m.names| && i != t
    ensures Scores(m, t)[i] in multiset(DropName(SortBy(Scores(m, t), ScoreDesc), m.names[t]))
  {
    var all := Scores(m, t);
    CandidateCount(m, t);
    assert all[i] != all[t] by {
      assert m.names[i] != m.names[t];
    }
    assert all[i] in multiset(all);
  }

  /** ... and one whose name was not recommended is not among the first five. */
  lemma NotRecommendedNotTop(m: SimMatrix, t: nat, i: nat)
    requires WellFormed(m) && t < |m.names| && i < |m.names|
    requires m.names[i] !in MostSimilar(m, t)
    ensures Scores(m, t)[i] !in multiset(MostSimilarScored(m, t))
  {
    NameNotListed(MostSimilarScored(m, t), Scores(m, t)[i]);
  }

  /** `df_mf[df_mf['Item_name'].str.lower() == item_name]['Item_name'].iloc[0]`:
      the name of the first game whose lower-cased name is `q`. */
  function Selected(games: seq<GameRecord>, q: string): (r: Option<string>)
    ensures r.None? <==> forall g :: g in games ==> Lower(g.name) != q
    ensures r.Some? ==> Lower(r.value) == q
    ensures r.Some? ==> exists i :: (0 <= i < |games| && games[i].name == r.value
      && forall k :: 0 <= k < i ==> Lower(games[k].name) != q)
  {
    if games == [] then None
    else if Lower(games[0].name) == q then Some(games[0].name)
    else Selected(games[1..], q)
  }

  /** `get_recommendations_by_name(item_name)`, without the word cloud. */
  function RecommendByName(games: seq<GameRecord>, m: SimMatrix, itemName: string): (r: Answer<seq<Display>>)
    requires WellFormed(m)
    ensures r.Message? ==> r.error == UnknownGame(Lower(itemName))
    ensures r.Table? ==> exists g :: g in games && Lower(g.name) == Lower(itemName)
  {
    var q := Lower(itemName);
    match Selected(games, q)
    case None => Message(UnknownGame(q))
    case Some(name) =>
      if name !in m.names then Message(UnknownGame(q))
      else Table(JoinDisplay(games, MostSimilar(m, IndexOf(m.names, name))))
  }

  /** Names that differ only in letter case get the same answer. */
  lemma RecommendIgnoresCase(games: seq<GameRecord>, m: SimMatrix, a: string, b: string)
    requires WellFormed(m)
    requires Lower(a) == Lower(b)
    ensures RecommendByName(games, m, a) == RecommendByName(games, m, b)
  {
  }

  /** Lower-casing the input first changes nothing. */
  lemma RecommendOfLowered(games: seq<GameRecord>, m: SimMatrix, itemName: string)
    requires WellFormed(m)
    ensures RecommendByName(games, m, Lower(itemName)) == RecommendByName(games, m, itemName)
  {
    LowerIdempotent(itemName);
  }

  /** The lookup fails, with the lower-cased name in the message, exactly when
      no game matches case-insensitively or the first match is not an index of
      the similarity matrix; otherwise the table holds the display rows of the
      recommended games, and never a row of the selected game itself. */
  lemma RecommendByNameSpec(games: seq<GameRecord>, m: SimMatrix, itemName: string)
    requires WellFormed(m)
    ensures var r := RecommendByName(games, m, itemName);
      var sel := Selected(games, Lower(itemName));
      && (r.Message? <==> sel.None? || sel.value !in m.names)
      && (r.Message? ==> r.error == UnknownGame(Lower(itemName)))
      && (r.Table? ==>
            && Lower(sel.value) == Lower(itemName)
            && NoDup(r.rows)
            && (forall d :: d in r.rows ==> d.name in MostSimilar(m, IndexOf(m.names, sel.value)))
            && (forall d :: d in r.rows ==> d.name != sel.value && d.name in m.names)
            && |MostSimilar(m, IndexOf(m.names, sel.value))| <= 5
            && (forall g :: g in games && g.name in MostSimilar(m, IndexOf(m.names, sel.value))
                  ==> ToDisplay(g) in r.rows))
  {
    var sel := Selected(games, Lower(itemName));
    if sel.Some? && sel.value in m.names {
      var t := IndexOf(m.names, sel.value);
      MostSimilarShape(m, t);
      JoinDisplaySound(games, MostSimilar(m, t));
      JoinDisplayComplete(games, MostSimilar(m, t));
    }
  }
}
