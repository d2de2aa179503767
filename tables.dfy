/** Tables as the monitor sees them after pandas has parsed a CSV file: an ordered
    list of column names and a list of rows, each row mapping a column name to a
    cell that is either a string or null (pandas' NaN). */
module Tables {
  import opened Common

  type Cell = Option<string>
  type Row = map<string, Cell>

  datatype Table = Table(columns: seq<string>, rows: seq<Row>)

  /** The cell of column `c` in row `r`; a column the row lacks reads as null. */
  function Get(r: Row, c: string): Cell
  {
    if c in r then r[c] else None
  }

  /** The shape pandas guarantees: every row carries exactly the table's columns. */
  predicate WellFormed(t: Table)
  {
    forall r :: r in t.rows ==> r.Keys == Elems(t.columns)
  }

  /** `df.empty`: a frame with no rows or no columns. */
  predicate IsEmpty(t: Table)
  {
    |t.rows| == 0 || |t.columns| == 0
  }

  /** No row has a null in column `key`. */
  predicate KeysNonNull(rows: seq<Row>, key: string)
  {
    forall i :: 0 <= i < |rows| ==> Get(rows[i], key).Some?
  }

  /** The values of column `c`, row by row (`df[c]`). */
  function Column(rows: seq<Row>, c: string): (r: seq<Cell>)
    ensures |r| == |rows|
    ensures forall i :: 0 <= i < |rows| ==> r[i] == Get(rows[i], c)
  {
    seq(|rows|, i requires 0 <= i < |rows| => Get(rows[i], c))
  }

  /** One row of `df.reindex(columns=cols)`: exactly the columns `cols`, a cell the
      row had is kept and a column it lacked is filled with null. */
  function Reindex(r: Row, cols: seq<string>): (r': Row)
    ensures r'.Keys == Elems(cols)
    ensures forall c :: c in r' ==> r'[c] == Get(r, c)
  {
    map c | c in Elems(cols) :: Get(r, c)
  }

  function ReindexRows(rows: seq<Row>, cols: seq<string>): (r: seq<Row>)
    ensures |r| == |rows|
    ensures forall i :: 0 <= i < |rows| ==> r[i] == Reindex(rows[i], cols)
  {
    seq(|rows|, i requires 0 <= i < |rows| => Reindex(rows[i], cols))
  }

  /** Reindexing a row onto the columns it already has changes nothing. */
  lemma ReindexIdentity(r: Row, cols: seq<string>)
    requires r.Keys == Elems(cols)
    ensures Reindex(r, cols) == r
  {
    var r' := Reindex(r, cols);
    assert forall c :: c in r' ==> r'[c] == r[c];
  }

  /** Reindexing never changes a cell of a column in the target list. */
  lemma ReindexKeepsCells(r: Row, cols: seq<string>, c: string)
    requires c in cols
    ensures Get(Reindex(r, cols), c) == Get(r, c)
  {
    assert c in Elems(cols);
  }

  /** `cols` without the labels in `dropped`, order kept. */
  function RemoveColumns(cols: seq<string>, dropped: set<string>): (r: seq<string>)
    ensures Elems(r) == Elems(cols) - dropped
    ensures |r| <= |cols|
  {
    if |cols| == 0 then []
    else
      var p := RemoveColumns(cols[..|cols| - 1], dropped);
      var c := cols[|cols| - 1];
      assert cols == cols[..|cols| - 1] + [c];
      assert Elems(cols) == Elems(cols[..|cols| - 1]) + {c};
      if c in dropped then p
      else
        assert Elems(p + [c]) == Elems(p) + {c};
        p + [c]
  }

  /** Removal works label by label: removing from a concatenation removes from
      each part, so the labels that stay keep their relative order. */
  lemma {:induction false} RemoveColumnsAppend(a: seq<string>, b: seq<string>, dropped: set<string>)
    ensures RemoveColumns(a + b, dropped) == RemoveColumns(a, dropped) + RemoveColumns(b, dropped)
  {
    if |b| == 0 {
      assert a + b == a;
    } else {
      var q := b[..|b| - 1];
      var c := b[|b| - 1];
      RemoveColumnsAppend(a, q, dropped);
      assert (a + b)[..|a + b| - 1] == a + q;
      assert (a + b)[|a + b| - 1] == c;
    }
  }

  lemma {:induction false} RemoveNothing(cols: seq<string>)
    ensures RemoveColumns(cols, {}) == cols
  {
    if |cols| > 0 {
      RemoveNothing(cols[..|cols| - 1]);
      assert cols == cols[..|cols| - 1] + [cols[|cols| - 1]];
    }
  }

  /** Removing one set of labels and then another is removing their union. */
  lemma {:induction false} RemoveTwice(cols: seq<string>, a: set<string>, b: set<string>)
    ensures RemoveColumns(RemoveColumns(cols, a), b) == RemoveColumns(cols, a + b)
  {
    if |cols| > 0 {
      var p := cols[..|cols| - 1];
      var c := cols[|cols| - 1];
      RemoveTwice(p, a, b);
      assert cols[..|cols| - 1] == p;
      if c !in a {
        assert RemoveColumns(cols, a) == RemoveColumns(p, a) + [c];
        var q := RemoveColumns(cols, a);
        assert q[..|q| - 1] == RemoveColumns(p, a);
      }
    }
  }

  function DropFromRows(rows: seq<Row>, dropped: set<string>): (r: seq<Row>)
    ensures |r| == |rows|
    ensures forall i :: 0 <= i < |rows| ==> r[i] == rows[i] - dropped
  {
    seq(|rows|, i requires 0 <= i < |rows| => rows[i] - dropped)
  }

  /** A pandas frame that the monitor changes in place (`drop(..., inplace=True)`). */
  class Frame {
    var columns: seq<string>
    var rows: seq<Row>

    constructor (t: Table)
      ensures Value() == t
    {
      columns := t.columns;
      rows := t.rows;
    }

    function Value(): Table
      reads this
    {
      Table(columns, rows)
    }

    /** `drop(columns=col, inplace=True)`: the label leaves the column list and
        every row; pandas refuses a label the frame does not have. */
    method DropColumn(col: string)
      requires col in columns
      modifies this
      ensures columns == RemoveColumns(old(columns), {col})
      ensures rows == DropFromRows(old(rows), {col})
    {
      columns := RemoveColumns(columns, {col});
      rows := DropFromRows(rows, {col});
    }
  }
}
