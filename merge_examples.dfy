/** A small merge worked out completely, as the code computes it. */
module MergeExamples {
  import opened Common
  import opened Strings
  import opened Tables
  import opened MergeEngine

  /** The master `[id, a, b]` with the single row 1/x/y. */
  const ExampleMaster := Table(["id", "a", "b"], [map["id" := Some("1"), "a" := Some("x"), "b" := Some("y")]])

  /** An incoming file `[id, a]` updating row 1 and no longer carrying `b`. */
  const ExampleIncoming := Table(["id", "a"], [map["id" := Some("1"), "a" := Some("x2")]])

  /** The merge is the sorted columns with the kept rows, then the added rows. */
  lemma MergeFromParts(base: Table, incoming: Table, key: string, cols: seq<string>,
                       kept: seq<Row>, added: seq<Row>)
    requires key in incoming.columns
    requires AllColumns(base, incoming) == cols
    requires Survivors(ReindexRows(base.rows, cols), key, NewKeys(incoming, key)) == kept
    requires ReindexRows(incoming.rows, cols) == added
    ensures Merge(base, incoming, key) == Table(cols, kept + added)
  {
  }

  /** Reindexing onto three named columns. */
  lemma ReindexOntoThree(r: Row, a: string, b: string, c: string)
    ensures Reindex(r, [a, b, c]) == map[a := Get(r, a), b := Get(r, b), c := Get(r, c)]
  {
    var cols := [a, b, c];
    assert Elems(cols) == {a, b, c};
  }

  lemma ExampleColumns()
    ensures AllColumns(ExampleMaster, ExampleIncoming) == ["a", "b", "id"]
  {
    var expected := ["a", "b", "id"];
    assert StrictlySorted(expected) by {
      assert Less("a", "b") && Less("b", "id");
      LessTransitive("a", "b", "id");
    }
    assert Elems(expected) == Elems(ExampleMaster.columns) + Elems(ExampleIncoming.columns) by {
      assert Elems(expected) == {"a", "b", "id"};
      assert Elems(ExampleMaster.columns) == {"id", "a", "b"};
    }
    StrictlySortedUnique(AllColumns(ExampleMaster, ExampleIncoming), expected);
  }

  lemma ExampleKept()
    ensures Survivors(ReindexRows(ExampleMaster.rows, ["a", "b", "id"]), "id", NewKeys(ExampleIncoming, "id")) == []
  {
    var incoming := ExampleIncoming;
    assert NewKeys(incoming, "id") == {Some("1")} by {
      assert incoming.rows[0] in incoming.rows;
      assert forall r :: r in incoming.rows ==> r == incoming.rows[0];
    }
    var rb := ReindexRows(ExampleMaster.rows, ["a", "b", "id"]);
    ReindexOntoThree(ExampleMaster.rows[0], "a", "b", "id");
    assert Get(rb[0], "id") == Some("1");
    assert rb[..0] == [];
  }

  lemma ExampleAdded()
    ensures ReindexRows(ExampleIncoming.rows, ["a", "b", "id"]) == [map["a" := Some("x2"), "b" := None, "id" := Some("1")]]
  {
    ReindexOntoThree(ExampleIncoming.rows[0], "a", "b", "id");
  }

  /** Column `b` is absent from the incoming file and null on the only updated
      row, yet the merge keeps it: after reindexing, both frames have the same
      columns, so the pruning loop has nothing to visit. Row 1 is replaced. */
  lemma ObsoleteColumnKept()
    ensures Merge(ExampleMaster, ExampleIncoming, "id")
         == Table(["a", "b", "id"], [map["a" := Some("x2"), "b" := None, "id" := Some("1")]])
  {
    ExampleColumns();
    ExampleKept();
    ExampleAdded();
    MergeFromParts(ExampleMaster, ExampleIncoming, "id", ["a", "b", "id"], [],
                   [map["a" := Some("x2"), "b" := None, "id" := Some("1")]]);
  }
}
