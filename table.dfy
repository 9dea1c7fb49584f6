/** A pandas DataFrame as the cleaning helpers of Notebooks/utils.py see it:
    named columns, rows of cells, a cell either missing or holding a string, a
    float, an integer or a list; and the order `sort_values` puts a column's
    values in. */
module Table {
  import opened Basics
  import opened Sorting

  datatype Value = Str(s: string) | Float(f: real) | Int(n: int) | ListOf(items: seq<string>)

  /** `None` is a missing value (`NaN`/`None`). */
  type Cell = Option<Value>

  type Row = seq<Cell>

  /** A DataFrame the helpers update in place. */
  class Frame {
    var columns: seq<string>
    var rows: seq<Row>

    /** Column names are distinct and every row has one cell per column. */
    ghost predicate Valid()
      reads this
    {
      && NoDup(columns)
      && forall i :: 0 <= i < |rows| ==> |rows[i]| == |columns|
    }
  }

  /** Every row has a cell in column `j`. */
  ghost predicate HasColumn(rows: seq<Row>, j: nat) {
    forall i :: 0 <= i < |rows| ==> j < |rows[i]|
  }

  /** `df[column]`: the cells of column `j`, top to bottom. */
  function ColumnOf(rows: seq<Row>, j: nat): (col: seq<Cell>)
    requires HasColumn(rows, j)
    ensures |col| == |rows|
    ensures forall i :: 0 <= i < |rows| ==> col[i] == rows[i][j]
  {
    seq(|rows|, i requires 0 <= i < |rows| && j < |rows[i]| => rows[i][j])
  }

  /** `isnull().sum()` over a column or a row. */
  function Nulls(cells: seq<Cell>): (n: nat)
    ensures n <= |cells|
  {
    if cells == [] then 0 else (if cells[0].None? then 1 else 0) + Nulls(cells[1..])
  }

  /** `count()`: the cells that are not missing. */
  function NonNulls(cells: seq<Cell>): (n: nat)
    ensures n <= |cells|
  {
    if cells == [] then 0 else (if cells[0].Some? then 1 else 0) + NonNulls(cells[1..])
  }

  /** Every cell is counted exactly once, as missing or as present. */
  lemma {:induction false} NullsPlusNonNulls(cells: seq<Cell>)
    ensures Nulls(cells) + NonNulls(cells) == |cells|
  {
    if cells != [] {
      NullsPlusNonNulls(cells[1..]);
    }
  }

  /** No cell is missing exactly when the null count is zero. */
  lemma {:induction false} NullsZero(cells: seq<Cell>)
    ensures Nulls(cells) == 0 <==> forall i :: 0 <= i < |cells| ==> cells[i].Some?
  {
    if cells != [] {
      NullsZero(cells[1..]);
      assert forall i :: 1 <= i < |cells| ==> cells[i] == cells[1..][i - 1];
    }
  }

  /* ---------- the order of sort_values ---------- */

  /** Python's string order: code point by code point, a prefix first. */
  function LexLe(a: string, b: string): bool {
    a == [] || (b != [] && (a[0] < b[0] || (a[0] == b[0] && LexLe(a[1..], b[1..]))))
  }

  lemma {:induction false} LexLeTotal(a: string, b: string)
    ensures LexLe(a, b) || LexLe(b, a)
  {
    if a != [] && b != [] && a[0] == b[0] {
      LexLeTotal(a[1..], b[1..]);
    }
  }

  lemma {:induction false} LexLeTrans(a: string, b: string, c: string)
    requires LexLe(a, b) && LexLe(b, c)
    ensures LexLe(a, c)
  {
    if a != [] && b != [] && c != [] && a[0] == b[0] && b[0] == c[0] {
      LexLeTrans(a[1..], b[1..], c[1..]);
    }
  }

  /** Numbers first (integers and floats compared as numbers), then strings,
      then lists. */
  function Rank(v: Value): nat {
    match v
    case Float(_) => 0
    case Int(_) => 0
    case Str(_) => 1
    case ListOf(_) => 2
  }

  function AsNumber(v: Value): real
    requires Rank(v) == 0
  {
    if v.Float? then v.f else v.n as real
  }

  /** The order of one column's values under `sort_values`: missing values
      last, and lists all equivalent to each other. */
  function KeyLe(a: Cell, b: Cell): bool {
    match (a, b)
    case (None, _) => b.None?
    case (Some(_), None) => true
    case (Some(x), Some(y)) =>
      Rank(x) < Rank(y) ||
      (Rank(x) == Rank(y) &&
        (if Rank(x) == 0 then AsNumber(x) <= AsNumber(y)
         else if Rank(x) == 1 then LexLe(x.s, y.s)
         else true))
  }

  lemma KeyLeTotal(a: Cell, b: Cell)
    ensures KeyLe(a, b) || KeyLe(b, a)
  {
    if a.Some? && b.Some? && Rank(a.value) == 1 && Rank(b.value) == 1 {
      LexLeTotal(a.value.s, b.value.s);
    }
  }

  lemma KeyLeTrans(a: Cell, b: Cell, c: Cell)
    requires KeyLe(a, b) && KeyLe(b, c)
    ensures KeyLe(a, c)
  {
    if a.Some? && b.Some? && c.Some? && Rank(a.value) == 1 && Rank(b.value) == 1 && Rank(c.value) == 1 {
      LexLeTrans(a.value.s, b.value.s, c.value.s);
    }
  }

  /** Every value is equivalent to itself. */
  lemma KeyLeRefl(a: Cell)
    ensures KeyLe(a, a)
  {
    KeyLeTotal(a, a);
  }

  /** The cell of `row` in column `j`, or a missing value if it has none. */
  function KeyOf(row: Row, j: nat): Cell {
    if j < |row| then row[j] else None
  }

  /** `sort_values(by=column)` on rows. */
  function ByKey(j: nat): (Row, Row) -> bool {
    (a: Row, b: Row) => KeyLe(KeyOf(a, j), KeyOf(b, j))
  }

  lemma ByKeyOrder(j: nat)
    ensures TotalPreorder(ByKey(j))
  {
    forall a: Row, b: Row ensures ByKey(j)(a, b) || ByKey(j)(b, a) {
      KeyLeTotal(KeyOf(a, j), KeyOf(b, j));
    }
    forall a: Row, b: Row, c: Row | ByKey(j)(a, b) && ByKey(j)(b, c) ensures ByKey(j)(a, c) {
      KeyLeTrans(KeyOf(a, j), KeyOf(b, j), KeyOf(c, j));
    }
  }
}
