/** The table-cleaning helpers of Notebooks/utils.py: `data_summ` (its counts),
    `duplicates`, `drop_duplicates` and `replace_all_nulls`. */
module Cleaning {
  import opened Basics
  import opened Sorting
  import opened Table

  /* ---------- data_summ (Notebooks/utils.py:295-327) ---------- */

  /** One row of the summary: the column, its present and its missing cells. */
  datatype ColumnInfo = ColumnInfo(column: string, nonMissing: nat, missing: nat)

  /** The loop at lines 311-316: one entry per column, in column order. */
  method DataSumm(df: Frame) returns (info: seq<ColumnInfo>)
    requires df.Valid()
    ensures |info| == |df.columns|
    ensures forall k :: 0 <= k < |info| ==>
      && info[k].column == df.columns[k]
      && info[k].nonMissing == NonNulls(ColumnOf(df.rows, k))
      && info[k].missing == Nulls(ColumnOf(df.rows, k))
      && info[k].nonMissing + info[k].missing == |df.rows|
  {
    info := [];
    var k := 0;
    while k < |df.columns|
      invariant 0 <= k <= |df.columns|
      invariant |info| == k
      invariant forall m :: 0 <= m < k ==>
        && info[m].column == df.columns[m]
        && info[m].nonMissing == NonNulls(ColumnOf(df.rows, m))
        && info[m].missing == Nulls(ColumnOf(df.rows, m))
        && info[m].nonMissing + info[m].missing == |df.rows|
    {
      var col := ColumnOf(df.rows, k);
      NullsPlusNonNulls(col);
      info := info + [ColumnInfo(df.columns[k], NonNulls(col), Nulls(col))];
      k := k + 1;
    }
  }

  /* ---------- duplicates (Notebooks/utils.py:331-354) ---------- */

  /** The value of column `j` in every row. */
  function Keys(rows: seq<Row>, j: nat): (r: seq<Cell>)
    ensures |r| == |rows|
    ensures forall i :: 0 <= i < |rows| ==> r[i] == KeyOf(rows[i], j)
  {
    if rows == [] then [] else [KeyOf(rows[0], j)] + Keys(rows[1..], j)
  }

  /** The rows whose key occurs at least twice in `keys`, in their order. */
  function Repeated(rows: seq<Row>, keys: seq<Cell>, j: nat): (r: seq<Row>)
    ensures forall x :: multiset(r)[x] == if multiset(keys)[KeyOf(x, j)] >= 2 then multiset(rows)[x] else 0
  {
    if rows == [] then []
    else
      assert rows == [rows[0]] + rows[1..];
      (if multiset(keys)[KeyOf(rows[0], j)] >= 2 then [rows[0]] else []) + Repeated(rows[1..], keys, j)
  }

  /** A present list in the key column: pandas hashes the keys of
      `duplicated` and `drop_duplicates`, and a list is not hashable. */
  predicate HasListKey(rows: seq<Row>, j: nat) {
    exists i :: 0 <= i < |rows| && KeyOf(rows[i], j).Some? && KeyOf(rows[i], j).value.ListOf?
  }

  /** The message, the sorted duplicate rows, or the `TypeError` of a list key. */
  datatype DupAnswer = NoDuplicates | DuplicateRows(rows: seq<Row>) | Unhashable

  /** `duplicates(df, column)`, with `j` the position of `column`:
      `df[df.duplicated(subset=column, keep=False)].sort_values(by=column)`,
      or the message "There are no duplicates". Missing keys equal each other. */
  function Duplicates(rows: seq<Row>, j: nat): (ans: DupAnswer)
    ensures ans.DuplicateRows? ==> |ans.rows| >= 2
  {
    var dups := Repeated(rows, Keys(rows, j), j);
    if HasListKey(rows, j) then Unhashable
    else if dups == [] then NoDuplicates
    else
      RepeatedTwice(rows, j);
      DuplicateRows(SortBy(dups, ByKey(j)))
  }

  /** A repeated key brings at least two rows into the answer. */
  lemma RepeatedTwice(rows: seq<Row>, j: nat)
    requires Repeated(rows, Keys(rows, j), j) != []
    ensures |Repeated(rows, Keys(rows, j), j)| >= 2
  {
    var k := RepeatedKey(rows, j);
    var keys := Keys(rows, j);
    CountTwoPositions(keys, k);
    var a, b :| 0 <= a < b < |keys| && keys[a] == k && keys[b] == k;
    RepeatedPair(rows, j, a, b);
  }

  /** The key of a row in the answer occurs at least twice. */
  lemma RepeatedKey(rows: seq<Row>, j: nat) returns (k: Cell)
    requires Repeated(rows, Keys(rows, j), j) != []
    ensures multiset(Keys(rows, j))[k] >= 2
  {
    var dups := Repeated(rows, Keys(rows, j), j);
    k := KeyOf(dups[0], j);
    assert dups[0] in multiset(dups);
  }

  /** Two rows with the same key both come into the answer. */
  lemma RepeatedPair(rows: seq<Row>, j: nat, a: nat, b: nat)
    requires a < b < |rows| && Keys(rows, j)[a] == Keys(rows, j)[b]
    ensures |Repeated(rows, Keys(rows, j), j)| >= 2
  {
    var keys := Keys(rows, j);
    var dups := Repeated(rows, keys, j);
    var ra, rb := rows[a], rows[b];
    assert multiset(keys)[KeyOf(ra, j)] >= 2 by {
      TwoPositionsCount(keys, a, b);
    }
    if ra == rb {
      TwoPositionsCount(rows, a, b);
      CountTwoPositions(dups, ra);
    } else {
      assert ra in multiset(rows) && rb in multiset(rows);
      assert ra in multiset(dups) && rb in multiset(dups);
      TwoMembers(dups, ra, rb);
    }
  }



  /** `duplicated` fails exactly on a list key; otherwise the message comes
      exactly when no two rows share a key. */
  lemma DuplicatesNone(rows: seq<Row>, j: nat)
    ensures Duplicates(rows, j) == Unhashable <==> HasListKey(rows, j)
    ensures Duplicates(rows, j) == NoDuplicates <==> !HasListKey(rows, j) && NoDup(Keys(rows, j))
  {
    RepeatedNone(rows, j);
  }

  /** No row is repeated exactly when no two rows share a key. */
  lemma RepeatedNone(rows: seq<Row>, j: nat)
    ensures Repeated(rows, Keys(rows, j), j) == [] <==> NoDup(Keys(rows, j))
  {
    var keys := Keys(rows, j);
    if !NoDup(keys) {
      var a, b :| 0 <= a < b < |keys| && keys[a] == keys[b];
      RepeatedPair(rows, j, a, b);
    }
    if Repeated(rows, keys, j) != [] {
      var k := RepeatedKey(rows, j);
      CountTwoPositions(keys, k);
    }
  }

  /** Otherwise the answer holds every copy of every row whose key occurs at
      least twice, and no other row, sorted by key. */
  lemma DuplicatesRows(rows: seq<Row>, j: nat)
    ensures Duplicates(rows, j).DuplicateRows? ==>
      var out := Duplicates(rows, j).rows;
      && SortedBy(out, ByKey(j))
      && forall x :: multiset(out)[x] == if Count(Keys(rows, j), KeyOf(x, j)) >= 2 then multiset(rows)[x] else 0
  {
    var dups := Repeated(rows, Keys(rows, j), j);
    ByKeyOrder(j);
    SortBySorted(dups, ByKey(j));
  }

  /* ---------- replace_all_nulls (Notebooks/utils.py:388-409) ---------- */

  /** `df[column][mask].apply(type).unique()[0]`: the first value present. */
  function FirstValue(col: seq<Cell>): (r: Option<Value>)
    ensures r.None? <==> forall i :: 0 <= i < |col| ==> col[i].None?
  {
    if col == [] then None
    else
      assert forall i :: 1 <= i < |col| ==> col[i] == col[1..][i - 1];
      if col[0].Some? then col[0] else FirstValue(col[1..])
  }

  /** The first value present sits below missing cells only. */
  lemma {:induction false} FirstValueIsFirst(col: seq<Cell>)
    ensures FirstValue(col).Some? ==>
      exists i :: 0 <= i < |col| && col[i] == FirstValue(col) && forall k :: 0 <= k < i ==> col[k].None?
  {
    if col != [] && col[0].None? && FirstValue(col).Some? {
      FirstValueIsFirst(col[1..]);
      var i :| 0 <= i < |col[1..]| && col[1..][i] == FirstValue(col) && forall k :: 0 <= k < i ==> col[1..][k].None?;
      assert forall k :: 0 <= k < i + 1 ==> col[k].None? by {
        forall k | 0 <= k < i + 1 ensures col[k].None? {
          if k > 0 {
            assert col[k] == col[1..][k - 1];
          }
        }
      }
      assert col[i + 1] == FirstValue(col);
    }
  }

  /** Every value present is a number, so `mean()` is defined. */
  ghost predicate AllNumeric(col: seq<Cell>) {
    forall i :: 0 <= i < |col| && col[i].Some? ==> Rank(col[i].value) == 0
  }

  function IsNumeric(col: seq<Cell>): (b: bool)
    ensures b <==> AllNumeric(col)
  {
    if col == [] then true
    else
      assert forall i :: 1 <= i < |col| ==> col[i] == col[1..][i - 1];
      (col[0].None? || Rank(col[0].value) == 0) && IsNumeric(col[1..])
  }

  /** The sum and the number of the numbers present. */
  function NumSum(col: seq<Cell>): real {
    if col == [] then 0.0
    else (if col[0].Some? && Rank(col[0].value) == 0 then AsNumber(col[0].value) else 0.0) + NumSum(col[1..])
  }

  function NumCount(col: seq<Cell>): (n: nat)
    ensures (exists i :: 0 <= i < |col| && col[i].Some? && Rank(col[i].value) == 0) ==> n > 0
  {
    if col == [] then 0
    else
      assert forall i :: 1 <= i < |col| ==> col[i] == col[1..][i - 1];
      (if col[0].Some? && Rank(col[0].value) == 0 then 1 else 0) + NumCount(col[1..])
  }

  /** What the loop does to one column, decided by the type of its first value:
      strings and lists get "No data", floats the mean, other types nothing;
      a column with no value fails at `dtype[0]`, and `mean()` fails on a
      float column that also holds values that are not numbers. */
  datatype Fill = FillWith(v: Value) | Keep | NoValues | NoMean

  function PlanFor(col: seq<Cell>): (p: Fill)
    ensures p.NoMean? ==> !IsNumeric(col)
    ensures p.FillWith? ==> p.v.Str? || p.v.Float?
  {
    match FirstValue(col)
    case None => NoValues
    case Some(Str(_)) => FillWith(Str("No data"))
    case Some(ListOf(_)) => FillWith(Str("No data"))
    case Some(Int(_)) => Keep
    case Some(Float(_)) =>
      if !IsNumeric(col) then NoMean
      else
        FirstValueIsFirst(col);
        FillWith(Float(NumSum(col) / NumCount(col) as real))
  }

  predicate Fails(p: Fill) {
    p.NoValues? || p.NoMean?
  }

  /** The exception the source raises for a failing column. */
  datatype FillError = NoValueIn(column: string) | NoMeanFor(column: string)

  ghost predicate Rect(rows: seq<Row>, w: nat) {
    forall i :: 0 <= i < |rows| ==> |rows[i]| == w
  }

  function FillCell(cell: Cell, p: Fill): (c: Cell)
    ensures cell.Some? ==> c == cell
    ensures c.None? <==> cell.None? && !p.FillWith?
  {
    if cell.None? && p.FillWith? then Some(p.v) else cell
  }

  /** The table once columns `0..c-1` have been through the loop, one column
      per turn. */
  function FilledUpTo(rows: seq<Row>, w: nat, c: nat): (r: seq<Row>)
    requires Rect(rows, w) && c <= w
    ensures |r| == |rows| && Rect(r, w)
    decreases c
  {
    if c == 0 then rows
    else
      var prev := FilledUpTo(rows, w, c - 1);
      var p := PlanFor(ColumnOf(rows, c - 1));
      if p.FillWith? then FillColumn(prev, c - 1, p.v) else prev
  }

  /** Cell by cell: a missing cell of a column the loop has reached is filled
      by that column's plan; every other cell keeps its value. */
  lemma {:induction false} FilledCells(rows: seq<Row>, w: nat, c: nat)
    requires Rect(rows, w) && c <= w
    ensures forall i, j :: 0 <= i < |rows| && 0 <= j < w ==>
      FilledUpTo(rows, w, c)[i][j] ==
        if j < c then FillCell(rows[i][j], PlanFor(ColumnOf(rows, j))) else rows[i][j]
    decreases c
  {
    if c == 0 {
      assert FilledUpTo(rows, w, c) == rows;
    } else {
      FilledCells(rows, w, c - 1);
      var prev := FilledUpTo(rows, w, c - 1);
      var p := PlanFor(ColumnOf(rows, c - 1));
      forall i, j | 0 <= i < |rows| && 0 <= j < w
        ensures FilledUpTo(rows, w, c)[i][j] ==
          if j < c then FillCell(rows[i][j], PlanFor(ColumnOf(rows, j))) else rows[i][j]
      {
        assert prev[i][j] == if j < c - 1 then FillCell(rows[i][j], PlanFor(ColumnOf(rows, j))) else rows[i][j];
        if p.FillWith? {
          assert FilledUpTo(rows, w, c) == FillColumn(prev, c - 1, p.v);
          assert FilledUpTo(rows, w, c)[i] == prev[i][c - 1 := FillCell(prev[i][c - 1], FillWith(p.v))];
        } else {
          assert FilledUpTo(rows, w, c) == prev;
        }
        if j == c - 1 {
          assert FillCell(rows[i][j], PlanFor(ColumnOf(rows, j))) == FillCell(rows[i][j], p);
        }
      }
    }
  }

  /** `df.loc[:, column] = df.loc[:, column].fillna(v)`. */
  function FillColumn(rows: seq<Row>, j: nat, v: Value): (r: seq<Row>)
    requires HasColumn(rows, j)
    ensures |r| == |rows|
    ensures forall i :: 0 <= i < |rows| ==> r[i] == rows[i][j := FillCell(rows[i][j], FillWith(v))]
  {
    seq(|rows|, i requires 0 <= i < |rows| => rows[i][j := FillCell(rows[i][j], FillWith(v))])
  }

  /** The first failing column from `c` on, or `w` when none fails. */
  function StopFrom(rows: seq<Row>, w: nat, c: nat): (s: nat)
    requires Rect(rows, w) && c <= w
    ensures c <= s <= w
    decreases w - c
  {
    if c == w then w
    else if Fails(PlanFor(ColumnOf(rows, c))) then c
    else StopFrom(rows, w, c + 1)
  }

  /** Column `c` is still as it was when the loop reaches it. */
  lemma ColumnNotReached(rows: seq<Row>, w: nat, c: nat)
    requires Rect(rows, w) && c < w
    ensures ColumnOf(FilledUpTo(rows, w, c), c) == ColumnOf(rows, c)
  {
    FilledCells(rows, w, c);
  }

  /** Lines 393-407 on a frame. The loop stops at the first failing column.
      Its exception propagates, and the earlier columns stay filled. */
  method ReplaceAllNulls(df: Frame) returns (err: Option<FillError>)
    requires df.Valid()
    modifies df
    ensures df.Valid()
    ensures df.columns == old(df.columns)
    ensures var stop := StopFrom(old(df.rows), |df.columns|, 0);
      && df.rows == FilledUpTo(old(df.rows), |df.columns|, stop)
      && (err.None? <==> stop == |df.columns|)
      && (err.Some? ==>
            err.value == (if PlanFor(ColumnOf(old(df.rows), stop)).NoValues? then NoValueIn(df.columns[stop])
                          else NoMeanFor(df.columns[stop])))
  {
    var rows0 := df.rows;
    var rows, stop := FillColumns(rows0, |df.columns|);
    df.rows := rows;
    if stop == |df.columns| {
      err := None;
    } else if PlanFor(ColumnOf(rows0, stop)).NoValues? {
      err := Some(NoValueIn(df.columns[stop]));
    } else {
      err := Some(NoMeanFor(df.columns[stop]));
    }
  }

  /** The loop over the columns: each column is filled by its plan, and the
      loop stops at the first column whose plan fails. */
  method FillColumns(rows0: seq<Row>, w: nat) returns (rows: seq<Row>, stop: nat)
    requires Rect(rows0, w)
    ensures stop == StopFrom(rows0, w, 0)
    ensures rows == FilledUpTo(rows0, w, stop)
  {
    rows := rows0;
    var c := 0;
    while c < w
      invariant c <= w
      invariant rows == FilledUpTo(rows0, w, c)
      invariant StopFrom(rows0, w, 0) == StopFrom(rows0, w, c)
    {
      ColumnNotReached(rows0, w, c);
      var plan := PlanFor(ColumnOf(rows, c));
      if plan.NoValues? || plan.NoMean? {
        return rows, c;
      }
      assert StopFrom(rows0, w, c) == StopFrom(rows0, w, c + 1);
      if plan.FillWith? {
        rows := FillColumn(rows, c, plan.v);
      }
      assert rows == FilledUpTo(rows0, w, c + 1);
      c := c + 1;
    }
    return rows, w;
  }

  /** The loop raises exactly at the first column whose plan fails. */
  lemma {:induction false} StopFromSpec(rows: seq<Row>, w: nat, c: nat)
    requires Rect(rows, w) && c <= w
    ensures forall j :: c <= j < StopFrom(rows, w, c) ==> !Fails(PlanFor(ColumnOf(rows, j)))
    ensures StopFrom(rows, w, c) < w ==> Fails(PlanFor(ColumnOf(rows, StopFrom(rows, w, c))))
    decreases w - c
  {
    if c < w && !Fails(PlanFor(ColumnOf(rows, c))) {
      StopFromSpec(rows, w, c + 1);
    }
  }

  /** A column fails at `dtype[0]` exactly when it holds no value at all, and
      at `mean()` exactly when its first value is a float and some value is
      not a number. */
  lemma PlanForFails(col: seq<Cell>)
    ensures PlanFor(col).NoValues? <==> forall i :: 0 <= i < |col| ==> col[i].None?
    ensures PlanFor(col).NoMean? <==>
      && FirstValue(col).Some? && FirstValue(col).value.Float?
      && exists i :: 0 <= i < |col| && col[i].Some? && Rank(col[i].value) != 0
  {
  }

  /** How far the numbers of a column lie above `t`, summed. */
  function Excess(col: seq<Cell>, t: real): real {
    if col == [] then 0.0
    else (if col[0].Some? && Rank(col[0].value) == 0 then AsNumber(col[0].value) - t else 0.0) + Excess(col[1..], t)
  }

  /** The excess is the sum less `t` times the count. */
  lemma {:induction false} ExcessSum(col: seq<Cell>, t: real)
    ensures Excess(col, t) == NumSum(col) - t * NumCount(col) as real
  {
    if col != [] {
      ExcessSum(col[1..], t);
      var rest: real := NumCount(col[1..]) as real;
      assert t * (1.0 + rest) == t + t * rest;
    }
  }

  /** Numbers all above `t` give a positive excess, unless there are none. */
  lemma {:induction false} ExcessAbove(col: seq<Cell>, t: real)
    requires forall i :: 0 <= i < |col| && col[i].Some? && Rank(col[i].value) == 0 ==> AsNumber(col[i].value) > t
    ensures Excess(col, t) >= 0.0
    ensures NumCount(col) > 0 ==> Excess(col, t) > 0.0
  {
    if col != [] {
      assert forall i :: 1 <= i < |col| ==> col[i] == col[1..][i - 1];
      ExcessAbove(col[1..], t);
    }
  }

  /** Numbers all below `t` give a negative excess, unless there are none. */
  lemma {:induction false} ExcessBelow(col: seq<Cell>, t: real)
    requires forall i :: 0 <= i < |col| && col[i].Some? && Rank(col[i].value) == 0 ==> AsNumber(col[i].value) < t
    ensures Excess(col, t) <= 0.0
    ensures NumCount(col) > 0 ==> Excess(col, t) < 0.0
  {
    if col != [] {
      assert forall i :: 1 <= i < |col| ==> col[i] == col[1..][i - 1];
      ExcessBelow(col[1..], t);
    }
  }

  /** A number above `t` everywhere puts the sum above `t` times the count. */
  lemma SumAbove(col: seq<Cell>, t: real)
    requires forall i :: 0 <= i < |col| && col[i].Some? && Rank(col[i].value) == 0 ==> AsNumber(col[i].value) > t
    ensures NumSum(col) >= t * NumCount(col) as real
    ensures NumCount(col) > 0 ==> NumSum(col) > t * NumCount(col) as real
  {
    ExcessAbove(col, t);
    ExcessSum(col, t);
  }

  /** ... and a number below `t` everywhere puts it below. */
  lemma SumBelow(col: seq<Cell>, t: real)
    requires forall i :: 0 <= i < |col| && col[i].Some? && Rank(col[i].value) == 0 ==> AsNumber(col[i].value) < t
    ensures NumSum(col) <= t * NumCount(col) as real
    ensures NumCount(col) > 0 ==> NumSum(col) < t * NumCount(col) as real
  {
    ExcessBelow(col, t);
    ExcessSum(col, t);
  }

  /** The value a float column is filled with is a mean: no number present
      lies above all others' mean from both sides, i.e. some number present is
      at most the fill value and some is at least it. */
  lemma MeanWithinValues(col: seq<Cell>)
    ensures PlanFor(col).FillWith? && PlanFor(col).v.Float? ==>
      var m := PlanFor(col).v.f;
      && (exists i :: 0 <= i < |col| && col[i].Some? && Rank(col[i].value) == 0 && AsNumber(col[i].value) <= m)
      && (exists i :: 0 <= i < |col| && col[i].Some? && Rank(col[i].value) == 0 && AsNumber(col[i].value) >= m)
  {
    if PlanFor(col).FillWith? && PlanFor(col).v.Float? {
      FirstValueIsFirst(col);
      var sum, n := NumSum(col), NumCount(col);
      assert n > 0;
      assert PlanFor(col).v.f == sum / n as real;
      MeanTimesCount(sum, n as real);
      MeanBetween(col, sum / n as real);
    }
  }

  /** A value that times the count of numbers gives their sum has a number
      on each side of it. */
  lemma MeanBetween(col: seq<Cell>, m: real)
    requires NumCount(col) > 0 && m * NumCount(col) as real == NumSum(col)
    ensures exists i :: 0 <= i < |col| && col[i].Some? && Rank(col[i].value) == 0 && AsNumber(col[i].value) <= m
    ensures exists i :: 0 <= i < |col| && col[i].Some? && Rank(col[i].value) == 0 && AsNumber(col[i].value) >= m
  {
    if forall i :: 0 <= i < |col| && col[i].Some? && Rank(col[i].value) == 0 ==> AsNumber(col[i].value) > m {
      SumAbove(col, m);
      assert false;
    }
    if forall i :: 0 <= i < |col| && col[i].Some? && Rank(col[i].value) == 0 ==> AsNumber(col[i].value) < m {
      SumBelow(col, m);
      assert false;
    }
  }

  lemma MeanTimesCount(sum: real, n: real)
    requires n > 0.0
    ensures sum / n * n == sum
  {
  }

  /** After the loop, a column it filled has no missing cell left, a column it
      kept is unchanged, a present cell is never changed, and the columns it
      did not reach are unchanged. */
  lemma FilledColumns(rows: seq<Row>, w: nat, c: nat, j: nat)
    requires Rect(rows, w) && c <= w && j < w
    ensures var filled := FilledUpTo(rows, w, c);
      && (j < c && PlanFor(ColumnOf(rows, j)).FillWith? ==> Nulls(ColumnOf(filled, j)) == 0)
      && (j >= c || !PlanFor(ColumnOf(rows, j)).FillWith? ==> ColumnOf(filled, j) == ColumnOf(rows, j))
      && (forall i :: 0 <= i < |rows| && rows[i][j].Some? ==> filled[i][j] == rows[i][j])
  {
    var filled := FilledUpTo(rows, w, c);
    FilledCells(rows, w, c);
    NullsZero(ColumnOf(filled, j));
  }

  /* ---------- drop_duplicates (Notebooks/utils.py:357-385) ---------- */

  /** A row with its helper cells: `temp_index` (its position) and `num_null`
      (its missing cells). */
  datatype Tagged = Tagged(pos: nat, nulls: nat, row: Row)

  /** Lines 365-368 on the working copy. */
  function Tag(rows: seq<Row>): (r: seq<Tagged>)
    ensures |r| == |rows|
    ensures forall i :: 0 <= i < |rows| ==> r[i] == Tagged(i, Nulls(rows[i]), rows[i])
  {
    seq(|rows|, i requires 0 <= i < |rows| => Tagged(i, Nulls(rows[i]), rows[i]))
  }

  /** `sort_values(by=[column, 'num_null'])`: by key, then by missing cells. */
  function ByKeyThenNulls(j: nat): (Tagged, Tagged) -> bool {
    (a: Tagged, b: Tagged) =>
      KeyLe(KeyOf(a.row, j), KeyOf(b.row, j)) &&
      (KeyLe(KeyOf(b.row, j), KeyOf(a.row, j)) ==> a.nulls <= b.nulls)
  }

  lemma ByKeyThenNullsOrder(j: nat)
    ensures TotalPreorder(ByKeyThenNulls(j))
  {
    forall a: Tagged, b: Tagged ensures ByKeyThenNulls(j)(a, b) || ByKeyThenNulls(j)(b, a) {
      KeyLeTotal(KeyOf(a.row, j), KeyOf(b.row, j));
    }
    forall a: Tagged, b: Tagged, c: Tagged | ByKeyThenNulls(j)(a, b) && ByKeyThenNulls(j)(b, c)
      ensures ByKeyThenNulls(j)(a, c)
    {
      var ka, kb, kc := KeyOf(a.row, j), KeyOf(b.row, j), KeyOf(c.row, j);
      KeyLeTrans(ka, kb, kc);
      if KeyLe(kc, ka) {
        KeyLeTrans(kc, ka, kb);
        KeyLeTrans(kb, kc, ka);
      }
    }
  }

  /** `subset=column`: the key a tagged row is compared on. */
  function TagKey(j: nat): Tagged -> Cell {
    (t: Tagged) => KeyOf(t.row, j)
  }

  /** `sort_values(by='temp_index')`. */
  function ByPos(): (Tagged, Tagged) -> bool {
    (a: Tagged, b: Tagged) => a.pos <= b.pos
  }

  lemma ByPosOrder()
    ensures TotalPreorder(ByPos())
  {
  }

  /** Lines 371-374: sort, then keep the first row of each key. */
  function Kept(rows: seq<Row>, j: nat): (r: seq<Tagged>)
    ensures |r| <= |rows|
  {
    KeepFirst(SortBy(Tag(rows), ByKeyThenNulls(j)), TagKey(j), {})
  }

  /** Line 377: back in the original order. */
  function Restored(rows: seq<Row>, j: nat): (r: seq<Tagged>)
    ensures |r| <= |rows|
  {
    SortBy(Kept(rows, j), ByPos())
  }

  function Untag(ts: seq<Tagged>): (r: seq<Row>)
    ensures |r| == |ts|
    ensures forall m :: 0 <= m < |ts| ==> r[m] == ts[m].row
  {
    seq(|ts|, m requires 0 <= m < |ts| => ts[m].row)
  }

  /** The frame `drop_duplicates` returns, once line 380 has removed the
      helper columns from the working copy. */
  function DropResult(rows: seq<Row>, j: nat): (r: seq<Row>)
    ensures |r| <= |rows|
  {
    Untag(Restored(rows, j))
  }

  /** Appending a present cell leaves a row's missing count as it was. */
  lemma {:induction false} NullsAppendPresent(cells: seq<Cell>, v: Value)
    ensures Nulls(cells + [Some(v)]) == Nulls(cells)
  {
    if cells != [] {
      assert (cells + [Some(v)])[1..] == cells[1..] + [Some(v)];
      NullsAppendPresent(cells[1..], v);
    }
  }

  /** What `drop_duplicates` returns, or the exception it raises at line 371:
      `KeyError` for a column the frame lacks, `TypeError` for a list key. */
  datatype DropAnswer =
    | Dropped(columns: seq<string>, rows: seq<Row>)
    | MissingColumn(column: string)
    | UnhashableKey(column: string)

  /** `drop_duplicates(df, column)`. The two helper columns are added to the
      caller's frame in place (lines 365 and 368), before the sort of line 371
      can raise; the sorts, the dedup and the removal of line 380 work on
      copies, which are returned. */
  method DropDuplicates(df: Frame, column: string) returns (ans: DropAnswer)
    requires df.Valid()
    requires "temp_index" !in df.columns && "num_null" !in df.columns
    requires column != "temp_index" && column != "num_null"
    modifies df
    ensures df.Valid()
    ensures df.columns == old(df.columns) + ["temp_index", "num_null"]
    ensures |df.rows| == |old(df.rows)|
    ensures forall i :: 0 <= i < |df.rows| ==>
      df.rows[i] == old(df.rows)[i] + [Some(Int(i)), Some(Int(Nulls(old(df.rows)[i])))]
    ensures ans == MissingColumn(column) <==> column !in old(df.columns)
    ensures ans == UnhashableKey(column) <==>
      column in old(df.columns) && HasListKey(old(df.rows), IndexOf(old(df.columns), column))
    ensures ans.Dropped? ==>
      && column in old(df.columns)
      && ans.columns == old(df.columns)
      && ans.rows == DropResult(old(df.rows), IndexOf(old(df.columns), column))
  {
    var rows0, columns0 := df.rows, df.columns;
    df.columns := df.columns + ["temp_index"];
    df.rows := seq(|rows0|, i requires 0 <= i < |rows0| => rows0[i] + [Some(Int(i))]);
    var rows1 := df.rows;
    df.columns := df.columns + ["num_null"];
    df.rows := seq(|rows1|, i requires 0 <= i < |rows1| => rows1[i] + [Some(Int(Nulls(rows1[i])))]);
    forall i | 0 <= i < |rows0|
      ensures df.rows[i] == rows0[i] + [Some(Int(i)), Some(Int(Nulls(rows0[i])))]
    {
      NullsAppendPresent(rows0[i], Int(i));
    }
    assert df.columns == columns0 + ["temp_index", "num_null"];
    assert NoDup(df.columns) by {
      forall a, b | 0 <= a < b < |df.columns| ensures df.columns[a] != df.columns[b] {
        if b < |columns0| {
        } else if a < |columns0| {
          assert df.columns[a] in columns0;
        }
      }
    }
    if column !in columns0 {
      return MissingColumn(column);
    }
    var j := IndexOf(columns0, column);
    if HasListKey(rows0, j) {
      return UnhashableKey(column);
    }
    ans := Dropped(columns0, DropResult(rows0, j));
  }

  /** Every kept row is one of the input rows, with its own helper cells. */
  lemma RestoredFromInput(rows: seq<Row>, j: nat)
    ensures forall t :: t in Restored(rows, j) ==>
      t.pos < |rows| && t == Tagged(t.pos, Nulls(rows[t.pos]), rows[t.pos])
  {
    var sorted := SortBy(Tag(rows), ByKeyThenNulls(j));
    KeepFirstSub(sorted, TagKey(j), {});
    forall t | t in Restored(rows, j)
      ensures t.pos < |rows| && t == Tagged(t.pos, Nulls(rows[t.pos]), rows[t.pos])
    {
      assert t in multiset(Restored(rows, j));
      assert t in multiset(Tag(rows));
    }
  }

  /** Each key value is left exactly once: no two result rows share it ... */
  lemma DropKeysDistinct(rows: seq<Row>, j: nat)
    ensures NoDup(Keys(DropResult(rows, j), j))
  {
    var sorted := SortBy(Tag(rows), ByKeyThenNulls(j));
    KeepFirstKeysDistinct(sorted, TagKey(j), {});
    KeysDistinctSub(Kept(rows, j), Restored(rows, j), TagKey(j));
    var r := Restored(rows, j);
    var keys := Keys(DropResult(rows, j), j);
    forall m, n | 0 <= m < n < |keys| ensures keys[m] != keys[n] {
      assert TagKey(j)(r[m]) != TagKey(j)(r[n]);
    }
  }

  /** Every key of the input has a row in the deduplicated working copy ... */
  lemma KeptCovers(rows: seq<Row>, j: nat)
    ensures forall i :: 0 <= i < |rows| ==> exists y :: y in Kept(rows, j) && KeyOf(y.row, j) == KeyOf(rows[i], j)
  {
    var sorted := SortBy(Tag(rows), ByKeyThenNulls(j));
    forall i | 0 <= i < |rows| ensures exists y :: y in Kept(rows, j) && KeyOf(y.row, j) == KeyOf(rows[i], j) {
      var t := Tag(rows)[i];
      assert t in sorted by {
        assert t in multiset(Tag(rows));
      }
      KeepFirstRepresents(sorted, TagKey(j), t);
      var y :| y in Kept(rows, j) && TagKey(j)(y) == TagKey(j)(t);
      assert KeyOf(y.row, j) == KeyOf(rows[i], j);
    }
  }

  /** ... so every key value of the input is left. */
  lemma DropCovers(rows: seq<Row>, j: nat)
    ensures forall i :: 0 <= i < |rows| ==> KeyOf(rows[i], j) in Keys(DropResult(rows, j), j)
  {
    var r := Restored(rows, j);
    var keys := Keys(DropResult(rows, j), j);
    KeptCovers(rows, j);
    forall i | 0 <= i < |rows| ensures KeyOf(rows[i], j) in keys {
      var y :| y in Kept(rows, j) && KeyOf(y.row, j) == KeyOf(rows[i], j);
      assert y in multiset(Kept(rows, j));
      assert y in multiset(r);
      var m := IndexOf(r, y);
      assert keys[m] == KeyOf(y.row, j);
    }
  }

  /** In the deduplicated working copy, the row kept for a key has no more
      missing cells than any row with that key. */
  lemma KeptFewestNulls(rows: seq<Row>, j: nat)
    ensures forall x, i :: x in Kept(rows, j) && 0 <= i < |rows| && KeyOf(rows[i], j) == KeyOf(x.row, j) ==>
      x.nulls <= Nulls(rows[i])
  {
    var sorted := SortBy(Tag(rows), ByKeyThenNulls(j));
    assert SortedBy(sorted, ByKeyThenNulls(j)) by {
      ByKeyThenNullsOrder(j);
      SortBySorted(Tag(rows), ByKeyThenNulls(j));
    }
    KeepFirstEarliest(sorted, TagKey(j), {});
    forall x, i | x in Kept(rows, j) && 0 <= i < |rows| && KeyOf(rows[i], j) == KeyOf(x.row, j)
      ensures x.nulls <= Nulls(rows[i])
    {
      var e :| 0 <= e < |sorted| && sorted[e] == x && forall k :: 0 <= k < e ==> TagKey(j)(sorted[k]) != TagKey(j)(x);
      var t := Tag(rows)[i];
      assert t in multiset(Tag(rows));
      var p :| 0 <= p < |sorted| && sorted[p] == t;
      assert TagKey(j)(t) == TagKey(j)(x);
      if p != e {
        assert e < p;
        assert ByKeyThenNulls(j)(x, t);
        KeyLeRefl(KeyOf(x.row, j));
      }
    }
  }

  /** The row left for a key has no more missing cells than any input row with
      that key. */
  lemma DropFewestNulls(rows: seq<Row>, j: nat)
    ensures var out := DropResult(rows, j);
      forall m, i :: 0 <= m < |out| && 0 <= i < |rows| && KeyOf(rows[i], j) == KeyOf(out[m], j) ==>
        Nulls(out[m]) <= Nulls(rows[i])
  {
    var r := Restored(rows, j);
    KeptFewestNulls(rows, j);
    RestoredFromInput(rows, j);
    forall m | 0 <= m < |r| ensures r[m] in Kept(rows, j) && r[m].nulls == Nulls(r[m].row) {
      assert r[m] in multiset(r);
      assert r[m] in r;
    }
  }

  /** The rows left keep their original relative order: they sit at strictly
      increasing positions of the input. */
  lemma DropKeepsOrder(rows: seq<Row>, j: nat)
    ensures var out := DropResult(rows, j);
      var ps := seq(|Restored(rows, j)|, m requires 0 <= m < |Restored(rows, j)| => Restored(rows, j)[m].pos);
      && |ps| == |out|
      && (forall m :: 0 <= m < |out| ==> ps[m] < |rows| && out[m] == rows[ps[m]])
      && (forall m, n :: 0 <= m < n < |ps| ==> ps[m] < ps[n])
  {
    RestoredFromInput(rows, j);
    RestoredIncreasing(rows, j);
  }

  /** Sorting back by `temp_index` puts the kept rows at strictly increasing
      positions: no position is kept twice. */
  lemma RestoredIncreasing(rows: seq<Row>, j: nat)
    ensures var r := Restored(rows, j);
      forall m, n :: 0 <= m < n < |r| ==> r[m].pos < r[n].pos
  {
    var r := Restored(rows, j);
    RestoredFromInput(rows, j);
    assert SortedBy(r, ByPos()) by {
      ByPosOrder();
      SortBySorted(Kept(rows, j), ByPos());
    }
    assert NoDup(r) by {
      var sorted := SortBy(Tag(rows), ByKeyThenNulls(j));
      KeepFirstKeysDistinct(sorted, TagKey(j), {});
      KeysDistinctSub(Kept(rows, j), r, TagKey(j));
    }
    forall m, n | 0 <= m < n < |r| ensures r[m].pos < r[n].pos {
      assert ByPos()(r[m], r[n]);
      assert r[m] in r && r[n] in r;
    }
  }
}
