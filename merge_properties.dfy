/** What the upsert promises: the schema is the sorted union, every key keeps
    either its master rows or its incoming rows, keys stay unique when both
    inputs have unique keys, and merging the same file twice changes nothing. */
module MergeProperties {
  import opened Common
  import opened Strings
  import opened Tables
  import opened MergeEngine

  /** No two rows share a key value. */
  predicate KeysDistinct(rows: seq<Row>, key: string)
  {
    forall i, j :: 0 <= i < j < |rows| ==> Get(rows[i], key) != Get(rows[j], key)
  }

  /** The rows whose key is `k`, in order. */
  function RowsWithKey(rows: seq<Row>, key: string, k: Cell): (r: seq<Row>)
    ensures forall x :: x in r <==> x in rows && Get(x, key) == k
  {
    if |rows| == 0 then []
    else
      var p := RowsWithKey(rows[..|rows| - 1], key, k);
      var x := rows[|rows| - 1];
      assert rows == rows[..|rows| - 1] + [x];
      if Get(x, key) == k then p + [x] else p
  }

  // ---- Facts about the building blocks --------------------------------------

  /** Filtering out the replaced keys keeps the order of what survives: it
      distributes over concatenation. */
  lemma {:induction false} SurvivorsAppend(a: seq<Row>, b: seq<Row>, key: string, ks: set<Cell>)
    ensures Survivors(a + b, key, ks) == Survivors(a, key, ks) + Survivors(b, key, ks)
  {
    if |b| == 0 {
      assert a + b == a;
    } else {
      var b' := b[..|b| - 1];
      SurvivorsAppend(a, b', key, ks);
      assert (a + b)[..|a + b| - 1] == a + b';
    }
  }

  lemma {:induction false} SurvivorsKeepAll(rows: seq<Row>, key: string, ks: set<Cell>)
    requires forall x :: x in rows ==> Get(x, key) !in ks
    ensures Survivors(rows, key, ks) == rows
  {
    if |rows| > 0 {
      var p := rows[..|rows| - 1];
      assert forall x :: x in p ==> x in rows;
      SurvivorsKeepAll(p, key, ks);
      assert rows == p + [rows[|rows| - 1]];
    }
  }

  lemma SurvivorsKeepNone(rows: seq<Row>, key: string, ks: set<Cell>)
    requires forall x :: x in rows ==> Get(x, key) in ks
    ensures Survivors(rows, key, ks) == []
  {
    SurvivorsMembers(rows, key, ks);
    var r := Survivors(rows, key, ks);
    HeadInElems(r);
  }

  lemma {:induction false} SurvivorsKeysDistinct(rows: seq<Row>, key: string, ks: set<Cell>)
    requires KeysDistinct(rows, key)
    ensures KeysDistinct(Survivors(rows, key, ks), key)
  {
    if |rows| > 0 {
      var n := |rows|;
      var prefix := rows[..n - 1];
      var x := rows[n - 1];
      assert KeysDistinct(prefix, key);
      SurvivorsKeysDistinct(prefix, key, ks);
      SurvivorsMembers(prefix, key, ks);
      var p := Survivors(prefix, key, ks);
      forall i | 0 <= i < |p| ensures Get(p[i], key) != Get(x, key) {
        assert p[i] in prefix;
        var j :| 0 <= j < n - 1 && prefix[j] == p[i];
        assert rows[j] == p[i];
      }
    }
  }

  lemma ReindexRowsKeys(rows: seq<Row>, cols: seq<string>, key: string)
    requires key in cols
    ensures forall i :: 0 <= i < |rows| ==> Get(ReindexRows(rows, cols)[i], key) == Get(rows[i], key)
  {
    forall i | 0 <= i < |rows| ensures Get(ReindexRows(rows, cols)[i], key) == Get(rows[i], key) {
      ReindexKeepsCells(rows[i], cols, key);
    }
  }

  lemma ReindexRowsAppend(rows: seq<Row>, x: Row, cols: seq<string>)
    ensures ReindexRows(rows + [x], cols) == ReindexRows(rows, cols) + [Reindex(x, cols)]
  {
  }

  lemma {:induction false} RowsWithKeyAppend(a: seq<Row>, b: seq<Row>, key: string, k: Cell)
    ensures RowsWithKey(a + b, key, k) == RowsWithKey(a, key, k) + RowsWithKey(b, key, k)
  {
    if |b| == 0 {
      assert a + b == a;
    } else {
      var b' := b[..|b| - 1];
      RowsWithKeyAppend(a, b', key, k);
      assert (a + b)[..|a + b| - 1] == a + b';
    }
  }

  lemma RowsWithKeyNone(rows: seq<Row>, key: string, k: Cell)
    requires forall x :: x in rows ==> Get(x, key) != k
    ensures RowsWithKey(rows, key, k) == []
  {
  }

  /** Selecting by key commutes with reindexing onto columns that include the key. */
  lemma {:induction false} RowsWithKeyReindex(rows: seq<Row>, cols: seq<string>, key: string, k: Cell)
    requires key in cols
    ensures RowsWithKey(ReindexRows(rows, cols), key, k) == ReindexRows(RowsWithKey(rows, key, k), cols)
  {
    if |rows| > 0 {
      var p := rows[..|rows| - 1];
      var x := rows[|rows| - 1];
      RowsWithKeyReindex(p, cols, key, k);
      assert rows == p + [x];
      ReindexRowsAppend(p, x, cols);
      var rr := ReindexRows(rows, cols);
      assert rr[..|rr| - 1] == ReindexRows(p, cols);
      ReindexKeepsCells(x, cols, key);
      if Get(x, key) == k {
        ReindexRowsAppend(RowsWithKey(p, key, k), x, cols);
      }
    }
  }

  /** Dropping the replaced keys commutes with reindexing onto columns that
      include the key: both orders keep the same rows, in the same order. */
  lemma {:induction false} SurvivorsReindexCommute(rows: seq<Row>, cols: seq<string>, key: string, ks: set<Cell>)
    requires key in cols
    ensures Survivors(ReindexRows(rows, cols), key, ks) == ReindexRows(Survivors(rows, key, ks), cols)
  {
    if |rows| > 0 {
      var p := rows[..|rows| - 1];
      var x := rows[|rows| - 1];
      SurvivorsReindexCommute(p, cols, key, ks);
      assert rows == p + [x];
      ReindexRowsAppend(p, x, cols);
      var rr := ReindexRows(rows, cols);
      assert rr[..|rr| - 1] == ReindexRows(p, cols);
      ReindexKeepsCells(x, cols, key);
      if Get(x, key) !in ks {
        ReindexRowsAppend(Survivors(p, key, ks), x, cols);
      }
    }
  }

  /** Selecting key `k` after dropping the replaced keys finds nothing when `k` is
      replaced, and every row with key `k` otherwise. */
  lemma {:induction false} RowsWithKeySurvivors(rows: seq<Row>, key: string, ks: set<Cell>, k: Cell)
    ensures RowsWithKey(Survivors(rows, key, ks), key, k) == if k in ks then [] else RowsWithKey(rows, key, k)
  {
    if |rows| > 0 {
      var p := rows[..|rows| - 1];
      var x := rows[|rows| - 1];
      RowsWithKeySurvivors(p, key, ks, k);
      if Get(x, key) !in ks {
        RowsWithKeyAppend(Survivors(p, key, ks), [x], key, k);
      }
    }
  }

  /** The rows kept from a reindexed master are the reindexed master rows whose
      key is not being replaced. */
  lemma SurvivorsOfReindexed(rows: seq<Row>, cols: seq<string>, key: string, ks: set<Cell>)
    requires key in cols
    ensures forall x :: x in Survivors(ReindexRows(rows, cols), key, ks) <==>
      exists b :: b in rows && Get(b, key) !in ks && x == Reindex(b, cols)
  {
    var rb := ReindexRows(rows, cols);
    ReindexRowsKeys(rows, cols, key);
    SurvivorsMembers(rb, key, ks);
    forall x ensures x in Survivors(rb, key, ks) <==> exists b :: b in rows && Get(b, key) !in ks && x == Reindex(b, cols) {
      if x in rb && Get(x, key) !in ks {
        var i :| 0 <= i < |rb| && rb[i] == x;
        assert rows[i] in rows;
      }
      if exists b :: b in rows && Get(b, key) !in ks && x == Reindex(b, cols) {
        var b :| b in rows && Get(b, key) !in ks && x == Reindex(b, cols);
        var i :| 0 <= i < |rows| && rows[i] == b;
        assert rb[i] == x;
      }
    }
  }

  lemma ReindexRowsIdentity(rows: seq<Row>, cols: seq<string>)
    requires forall x :: x in rows ==> x.Keys == Elems(cols)
    ensures ReindexRows(rows, cols) == rows
  {
    forall i | 0 <= i < |rows| ensures ReindexRows(rows, cols)[i] == rows[i] {
      assert rows[i] in rows;
      ReindexIdentity(rows[i], cols);
    }
  }

  /** Every reindexed incoming row carries one of the incoming keys. */
  lemma IncomingKeysAreNew(incoming: Table, cols: seq<string>, key: string)
    requires key in cols
    ensures forall x :: x in ReindexRows(incoming.rows, cols) ==> Get(x, key) in NewKeys(incoming, key)
  {
    var ri := ReindexRows(incoming.rows, cols);
    ReindexRowsKeys(incoming.rows, cols, key);
    forall x | x in ri ensures Get(x, key) in NewKeys(incoming, key) {
      var i :| 0 <= i < |ri| && ri[i] == x;
      assert incoming.rows[i] in incoming.rows;
    }
  }

  // ---- The upsert -------------------------------------------------------------

  /** Line 199: the merged column list is the strictly ascending, duplicate-free
      union of both column lists; it holds the key column, and every merged row
      carries exactly those columns. */
  lemma UpsertSchema(base: Table, incoming: Table, key: string)
    requires key in incoming.columns
    ensures var m := Upsert(base, incoming, key);
      && StrictlySorted(m.columns)
      && Elems(m.columns) == Elems(base.columns) + Elems(incoming.columns)
      && key in m.columns
      && WellFormed(m)
  {
    var m := Upsert(base, incoming, key);
    var cols := AllColumns(base, incoming);
    var kept := Survivors(ReindexRows(base.rows, cols), key, NewKeys(incoming, key));
    var added := ReindexRows(incoming.rows, cols);
    SurvivorsMembers(ReindexRows(base.rows, cols), key, NewKeys(incoming, key));
    assert key in Elems(cols);
    forall r | r in m.rows ensures r.Keys == Elems(cols) {
      if r in kept {
        assert r in ReindexRows(base.rows, cols);
      } else {
        assert r in added;
      }
    }
  }

  /** Lines 203-204: the merged rows are the master rows whose key is not
      incoming, each reindexed, in their original order (see `SurvivorsAppend`),
      followed by every incoming row in its original order, reindexed so that a
      column the row lacked holds null (see `Tables.Reindex`). */
  lemma UpsertRows(base: Table, incoming: Table, key: string)
    requires key in incoming.columns
    ensures var m := Upsert(base, incoming, key);
      var cols := AllColumns(base, incoming);
      var n := |m.rows| - |incoming.rows|;
      && n >= 0
      && (forall x :: x in m.rows[..n] <==>
            exists b :: b in base.rows && Get(b, key) !in NewKeys(incoming, key) && x == Reindex(b, cols))
      && m.rows[n..] == ReindexRows(incoming.rows, cols)
      && m.rows == ReindexRows(Survivors(base.rows, key, NewKeys(incoming, key)), cols)
                   + ReindexRows(incoming.rows, cols)
  {
    var m := Upsert(base, incoming, key);
    var cols := AllColumns(base, incoming);
    var kept := Survivors(ReindexRows(base.rows, cols), key, NewKeys(incoming, key));
    assert m.rows[..|kept|] == kept;
    assert m.rows[|kept|..] == ReindexRows(incoming.rows, cols);
    assert key in Elems(cols);
    SurvivorsOfReindexed(base.rows, cols, key, NewKeys(incoming, key));
    SurvivorsReindexCommute(base.rows, cols, key, NewKeys(incoming, key));
  }

  /** The meaning of the upsert, key by key: the merged rows with key `k` are the
      incoming rows with key `k` when `k` is an incoming key, and the master rows
      with key `k` otherwise, in their original order and reindexed. */
  lemma UpsertByKey(base: Table, incoming: Table, key: string, k: Cell)
    requires key in incoming.columns
    ensures var cols := AllColumns(base, incoming);
      RowsWithKey(Upsert(base, incoming, key).rows, key, k)
        == ReindexRows(RowsWithKey(if k in NewKeys(incoming, key) then incoming.rows else base.rows, key, k), cols)
  {
    var cols := AllColumns(base, incoming);
    var ks := NewKeys(incoming, key);
    var rb := ReindexRows(base.rows, cols);
    var ri := ReindexRows(incoming.rows, cols);
    assert key in Elems(cols);
    RowsWithKeyAppend(Survivors(rb, key, ks), ri, key, k);
    RowsWithKeySurvivors(rb, key, ks, k);
    RowsWithKeyReindex(base.rows, cols, key, k);
    RowsWithKeyReindex(incoming.rows, cols, key, k);
    if k !in ks {
      RowsWithKeyNone(incoming.rows, key, k);
    }
  }

  /** Lines 190-196: with no readable master file the base is an empty frame with
      the incoming columns, and the merge is the incoming table reindexed onto its
      own sorted columns. */
  lemma EmptyMasterUpsert(incoming: Table, key: string)
    requires key in incoming.columns
    ensures var cols := SortedSet(incoming.columns);
      Upsert(EmptyLike(incoming), incoming, key) == Table(cols, ReindexRows(incoming.rows, cols))
  {
    var cols := AllColumns(EmptyLike(incoming), incoming);
    StrictlySortedUnique(cols, SortedSet(incoming.columns));
    assert ReindexRows(EmptyLike(incoming).rows, cols) == [];
  }

  /** Lines 198-204: when the master keys are unique and the incoming keys are
      unique, the merged keys are unique. */
  lemma UpsertKeepsKeysDistinct(base: Table, incoming: Table, key: string)
    requires key in incoming.columns
    requires KeysDistinct(base.rows, key) && KeysDistinct(incoming.rows, key)
    ensures KeysDistinct(Upsert(base, incoming, key).rows, key)
  {
    var m := Upsert(base, incoming, key);
    var cols := AllColumns(base, incoming);
    var ks := NewKeys(incoming, key);
    var rb := ReindexRows(base.rows, cols);
    var ri := ReindexRows(incoming.rows, cols);
    var kept := Survivors(rb, key, ks);
    assert key in Elems(cols);
    ReindexRowsKeys(base.rows, cols, key);
    ReindexRowsKeys(incoming.rows, cols, key);
    assert KeysDistinct(rb, key);
    assert KeysDistinct(ri, key);
    SurvivorsKeysDistinct(rb, key, ks);
    SurvivorsMembers(rb, key, ks);
    IncomingKeysAreNew(incoming, cols, key);
    AppendKeysDistinct(kept, ri, key);
    assert m.rows == kept + ri;
  }

  /** Two key-distinct row lists with no key in common append to a key-distinct
      list. */
  lemma AppendKeysDistinct(a: seq<Row>, b: seq<Row>, key: string)
    requires KeysDistinct(a, key) && KeysDistinct(b, key)
    requires forall x, y :: x in a && y in b ==> Get(x, key) != Get(y, key)
    ensures KeysDistinct(a + b, key)
  {
    var rows := a + b;
    forall i, j | 0 <= i < j < |rows| ensures Get(rows[i], key) != Get(rows[j], key) {
      if j < |a| {
        assert rows[i] == a[i] && rows[j] == a[j];
      } else if i >= |a| {
        assert rows[i] == b[i - |a|] && rows[j] == b[j - |a|];
      } else {
        assert rows[i] == a[i] && a[i] in a;
        assert rows[j] == b[j - |a|] && b[j - |a|] in b;
      }
    }
  }

  /** No de-duplication is done: two incoming rows that share a key both reach
      the merged table. */
  lemma DuplicateIncomingKeysSurvive(base: Table, incoming: Table, key: string, i: nat, j: nat)
    requires key in incoming.columns
    requires i < j < |incoming.rows|
    requires Get(incoming.rows[i], key) == Get(incoming.rows[j], key)
    ensures !KeysDistinct(Upsert(base, incoming, key).rows, key)
  {
    var cols := AllColumns(base, incoming);
    var kept := Survivors(ReindexRows(base.rows, cols), key, NewKeys(incoming, key));
    var ri := ReindexRows(incoming.rows, cols);
    assert key in Elems(cols);
    ReindexRowsKeys(incoming.rows, cols, key);
    AppendedDuplicates(kept, ri, key, i, j);
  }

  lemma AppendedDuplicates(kept: seq<Row>, added: seq<Row>, key: string, i: nat, j: nat)
    requires i < j < |added|
    requires Get(added[i], key) == Get(added[j], key)
    ensures !KeysDistinct(kept + added, key)
  {
    var rows := kept + added;
    assert rows[|kept| + i] == added[i] && rows[|kept| + j] == added[j];
  }

  /** A master whose keys are all present stays so when the incoming keys are
      all present (as `validate_dataframe` ensures). */
  lemma UpsertKeepsKeysNonNull(base: Table, incoming: Table, key: string)
    requires key in incoming.columns
    requires KeysNonNull(base.rows, key) && KeysNonNull(incoming.rows, key)
    ensures KeysNonNull(Upsert(base, incoming, key).rows, key)
  {
    var m := Upsert(base, incoming, key);
    var cols := AllColumns(base, incoming);
    var rb := ReindexRows(base.rows, cols);
    var kept := Survivors(rb, key, NewKeys(incoming, key));
    SurvivorsMembers(rb, key, NewKeys(incoming, key));
    assert key in Elems(cols);
    ReindexRowsKeys(base.rows, cols, key);
    ReindexRowsKeys(incoming.rows, cols, key);
    forall i | 0 <= i < |m.rows| ensures Get(m.rows[i], key).Some? {
      if i < |kept| {
        assert kept[i] in kept;
        var j :| 0 <= j < |rb| && rb[j] == kept[i];
      }
    }
  }

  /** Merging the same incoming table into the result of merging it once gives
      that result back: same columns, same rows, same order. */
  lemma UpsertIdempotent(base: Table, incoming: Table, key: string)
    requires key in incoming.columns
    ensures Upsert(Upsert(base, incoming, key), incoming, key) == Upsert(base, incoming, key)
  {
    var m := Upsert(base, incoming, key);
    var cols := AllColumns(base, incoming);
    var ks := NewKeys(incoming, key);
    var rb := ReindexRows(base.rows, cols);
    var kept := Survivors(rb, key, ks);
    var ri := ReindexRows(incoming.rows, cols);
    UpsertSchema(base, incoming, key);
    StrictlySortedUnique(AllColumns(m, incoming), cols);
    SurvivorsMembers(rb, key, ks);
    assert key in Elems(cols);
    IncomingKeysAreNew(incoming, cols, key);
    forall x | x in kept ensures Get(x, key) !in ks && x.Keys == Elems(cols) {
      assert x in m.rows;
    }
    ReupsertRows(kept, ri, cols, key, ks);
    assert m.rows == kept + ri;
    var m2 := Upsert(m, incoming, key);
    assert m2 == Table(cols, Survivors(ReindexRows(m.rows, cols), key, ks) + ri);
  }

  /** The row-level core of idempotence: reindexing rows already on `cols` and
      filtering out the replaced keys leaves exactly the part that was kept. */
  lemma ReupsertRows(kept: seq<Row>, ri: seq<Row>, cols: seq<string>, key: string, ks: set<Cell>)
    requires forall x :: x in kept ==> Get(x, key) !in ks && x.Keys == Elems(cols)
    requires forall x :: x in ri ==> Get(x, key) in ks && x.Keys == Elems(cols)
    ensures Survivors(ReindexRows(kept + ri, cols), key, ks) == kept
  {
    ReindexRowsIdentity(kept + ri, cols);
    SurvivorsAppend(kept, ri, key, ks);
    SurvivorsKeepAll(kept, key, ks);
    SurvivorsKeepNone(ri, key, ks);
  }

  /** The same for the merge as written, pruning loop included. */
  lemma MergeIdempotent(base: Table, incoming: Table, key: string)
    requires key in incoming.columns
    ensures Merge(Merge(base, incoming, key), incoming, key) == Merge(base, incoming, key)
  {
    UpsertIdempotent(base, incoming, key);
  }
}
