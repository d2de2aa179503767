/** The record `_save_metadata` writes next to the master file after each merge:
    the row count, the column count and the column names. */
module MetadataRecord {
  import opened Common
  import opened Strings
  import opened Tables
  import opened MergeEngine
  import opened MergeProperties

  /** The JSON document of lines 232-237, without its timestamp. */
  datatype Metadata = Metadata(rowCount: nat, columnCount: nat, columns: seq<string>)

  function MetadataOf(t: Table): (m: Metadata)
    ensures m.rowCount == |t.rows| && m.columnCount == |t.columns| && m.columns == t.columns
  {
    Metadata(|t.rows|, |t.columns|, t.columns)
  }

  /** Lines 199-204 and 232-237: after a merge the record lists the sorted union
      of both column lists, counts each distinct column once, and counts at least
      the incoming rows and at most all master and incoming rows together. */
  lemma MergeMetadata(base: Table, incoming: Table, key: string)
    requires key in incoming.columns
    ensures var m := MetadataOf(Merge(base, incoming, key));
      && StrictlySorted(m.columns)
      && Elems(m.columns) == Elems(base.columns) + Elems(incoming.columns)
      && m.columnCount == |Elems(base.columns) + Elems(incoming.columns)|
      && |incoming.rows| <= m.rowCount <= |base.rows| + |incoming.rows|
  {
    var u := Upsert(base, incoming, key);
    UpsertSchema(base, incoming, key);
    StrictlySortedNoDuplicates(u.columns);
    NoDuplicatesCard(u.columns);
    var cols := AllColumns(base, incoming);
    var kept := Survivors(ReindexRows(base.rows, cols), key, NewKeys(incoming, key));
    assert |u.rows| == |kept| + |incoming.rows|;
  }
}
