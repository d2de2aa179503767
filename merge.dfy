/** The key-based upsert with schema union that `process_file` performs while it
    holds the master-file lock: the incoming rows replace every master row that
    shares a key with them, both tables are widened to the sorted union of their
    columns, and a pruning loop then looks for obsolete columns. */
module MergeEngine {
  import opened Common
  import opened Strings
  import opened Tables

  /** `new_df[KEY_COLUMN].unique()`, which the merge only tests membership in. */
  function NewKeys(incoming: Table, key: string): (ks: set<Cell>)
  {
    set r | r in incoming.rows :: Get(r, key)
  }

  /** A key is new exactly when some incoming row has it. */
  lemma NewKeysMeaning(incoming: Table, key: string, k: Cell)
    ensures k in NewKeys(incoming, key) <==> exists r :: r in incoming.rows && Get(r, key) == k
  {
  }

  /** `pd.DataFrame(columns=new_df.columns)`: the base used when the master file
      is missing or cannot be read. */
  function EmptyLike(t: Table): Table
  {
    Table(t.columns, [])
  }

  /** `sorted(set(base_df.columns).union(set(new_df.columns)))`. */
  function AllColumns(base: Table, incoming: Table): (cols: seq<string>)
    ensures StrictlySorted(cols)
    ensures Elems(cols) == Elems(base.columns) + Elems(incoming.columns)
  {
    assert Elems(base.columns + incoming.columns) == Elems(base.columns) + Elems(incoming.columns);
    SortedSet(base.columns + incoming.columns)
  }

  /** `base_df[~base_df[KEY_COLUMN].isin(new_keys)]`: the rows whose key is not
      being replaced, in their original order. */
  function Survivors(rows: seq<Row>, key: string, newKeys: set<Cell>): (r: seq<Row>)
    ensures |r| <= |rows|
  {
    if |rows| == 0 then []
    else
      var p := Survivors(rows[..|rows| - 1], key, newKeys);
      var x := rows[|rows| - 1];
      if Get(x, key) in newKeys then p else p + [x]
  }

  /** A row survives exactly when it is a master row whose key is not incoming. */
  lemma {:induction false} SurvivorsMembers(rows: seq<Row>, key: string, newKeys: set<Cell>)
    ensures forall x :: x in Survivors(rows, key, newKeys) <==> x in rows && Get(x, key) !in newKeys
  {
    if |rows| > 0 {
      var p := rows[..|rows| - 1];
      SurvivorsMembers(p, key, newKeys);
      assert rows == p + [rows[|rows| - 1]];
    }
  }

  /** Lines 198-204: reindex both tables onto the sorted column union, drop the
      master rows whose key is incoming, and append the incoming rows. */
  function Upsert(base: Table, incoming: Table, key: string): Table
    requires key in incoming.columns
  {
    var newKeys := NewKeys(incoming, key);
    var cols := AllColumns(base, incoming);
    Table(cols, Survivors(ReindexRows(base.rows, cols), key, newKeys) + ReindexRows(incoming.rows, cols))
  }

  /** `merged[merged[KEY_COLUMN].isin(new_keys)][col].isna().all()`: every row whose
      key is incoming is null in `col` (true when there is no such row). */
  predicate UpdatedRowsNull(t: Table, col: string, key: string, newKeys: set<Cell>)
  {
    forall i :: 0 <= i < |t.rows| && Get(t.rows[i], key) in newKeys ==> Get(t.rows[i], col) == None
  }

  /** The columns the pruning loop visits:
      `set(base_df.columns) - set(new_df.columns) - {KEY_COLUMN}`. */
  function ObsoleteCandidates(baseColumns: seq<string>, newColumns: seq<string>, key: string): set<string>
  {
    Elems(baseColumns) - Elems(newColumns) - {key}
  }

  /** What the pruning loop leaves: every candidate column that is null on all
      updated rows is gone from the column list and from every row. */
  function Pruned(t: Table, candidates: set<string>, key: string, newKeys: set<Cell>): Table
  {
    var dropped := set c | c in candidates && UpdatedRowsNull(t, c, key, newKeys);
    Table(RemoveColumns(t.columns, dropped), DropFromRows(t.rows, dropped))
  }

  /** Lines 198-208 as written. By the time the pruning loop runs, both frames
      have been reindexed onto the same column list, so it has no candidates and
      the merge is exactly the upsert: no column is ever dropped. */
  function Merge(base: Table, incoming: Table, key: string): (m: Table)
    requires key in incoming.columns
    ensures m == Upsert(base, incoming, key)
  {
    var u := Upsert(base, incoming, key);
    var candidates := ObsoleteCandidates(u.columns, u.columns, key);
    assert candidates == {};
    PrunedNothing(u, key, NewKeys(incoming, key));
    Pruned(u, candidates, key, NewKeys(incoming, key))
  }

  lemma PrunedNothing(t: Table, key: string, newKeys: set<Cell>)
    ensures Pruned(t, {}, key, newKeys) == t
  {
    var none: set<string> := {};
    var dropped := set c | c in none && UpdatedRowsNull(t, c, key, newKeys);
    assert dropped == {};
    RemoveNothing(t.columns);
    DropNothing(t.rows);
  }

  lemma DropNothing(rows: seq<Row>)
    ensures DropFromRows(rows, {}) == rows
  {
    var r := DropFromRows(rows, {});
    forall i | 0 <= i < |rows| ensures r[i] == rows[i] {
      assert r[i] == rows[i] - {};
    }
  }

  /** Dropping other columns does not change whether `col` is null on the updated
      rows, as long as the key column stays. */
  lemma UpdatedRowsNullAfterDrop(t: Table, cols: seq<string>, dropped: set<string>, col: string,
                                 key: string, newKeys: set<Cell>)
    requires col !in dropped && key !in dropped
    ensures UpdatedRowsNull(Table(cols, DropFromRows(t.rows, dropped)), col, key, newKeys)
        == UpdatedRowsNull(t, col, key, newKeys)
  {
    var rows := DropFromRows(t.rows, dropped);
    forall i | 0 <= i < |t.rows|
      ensures Get(rows[i], key) == Get(t.rows[i], key) && Get(rows[i], col) == Get(t.rows[i], col)
    {
      assert rows[i] == t.rows[i] - dropped;
    }
  }

  lemma DropFromRowsTwice(rows: seq<Row>, a: set<string>, b: set<string>)
    ensures DropFromRows(DropFromRows(rows, a), b) == DropFromRows(rows, a + b)
  {
    var x := DropFromRows(DropFromRows(rows, a), b);
    var y := DropFromRows(rows, a + b);
    forall i | 0 <= i < |rows| ensures x[i] == y[i] {
      assert x[i] == rows[i] - a - b;
    }
  }

  /** Lines 206-208: the loop over the candidate columns, dropping from `merged`
      in place every one that is null on all rows whose key is incoming. */
  method PruneObsolete(merged: Frame, baseColumns: seq<string>, newColumns: seq<string>,
                       key: string, newKeys: set<Cell>)
    requires ObsoleteCandidates(baseColumns, newColumns, key) <= Elems(merged.columns)
    modifies merged
    ensures merged.Value() == Pruned(old(merged.Value()), ObsoleteCandidates(baseColumns, newColumns, key), key, newKeys)
  {
    ghost var original := merged.Value();
    var remaining := ObsoleteCandidates(baseColumns, newColumns, key);
    ghost var candidates := remaining;
    ghost var dropped: set<string> := {};
    RemoveNothing(original.columns);
    DropNothing(original.rows);
    while remaining != {}
      invariant remaining <= candidates
      invariant dropped == set c | c in candidates - remaining && UpdatedRowsNull(original, c, key, newKeys)
      invariant merged.columns == RemoveColumns(original.columns, dropped)
      invariant merged.rows == DropFromRows(original.rows, dropped)
      decreases remaining
    {
      var col :| col in remaining;
      assert col !in dropped && key !in dropped;
      assert col in Elems(merged.columns);
      UpdatedRowsNullAfterDrop(original, merged.columns, dropped, col, key, newKeys);
      if UpdatedRowsNull(merged.Value(), col, key, newKeys) {
        merged.DropColumn(col);
        RemoveTwice(original.columns, dropped, {col});
        DropFromRowsTwice(original.rows, dropped, {col});
        dropped := dropped + {col};
      }
      remaining := remaining - {col};
    }
    assert dropped == set c | c in candidates && UpdatedRowsNull(original, c, key, newKeys);
  }

  /** Lines 198-208 on a frame: build the upserted frame and run the pruning loop
      on it with the column lists the source passes it. */
  method MergeFrames(base: Table, incoming: Table, key: string) returns (merged: Frame)
    requires key in incoming.columns
    ensures fresh(merged)
    ensures merged.Value() == Merge(base, incoming, key)
  {
    var newKeys := NewKeys(incoming, key);
    var cols := AllColumns(base, incoming);
    var baseRows := ReindexRows(base.rows, cols);
    var newRows := ReindexRows(incoming.rows, cols);
    merged := new Frame(Table(cols, Survivors(baseRows, key, newKeys) + newRows));
    PruneObsolete(merged, cols, cols, key, newKeys);
  }
}
