/** `CSVWatchdogMonitor`: one run takes the stable files of the inbox and, file by
    file, validates each one, merges it into the master file under the lock,
    records the metadata and archives the file; a file that fails is logged and
    the run goes on with the next one. The filesystem is modelled as a value
    (`Store`) and what each file's bytes turn into as an input (`FileInput`). */
module Monitor {
  import opened Common
  import opened Strings
  import opened Tables
  import opened MergeEngine
  import opened MergeProperties
  import opened Validation
  import opened Stability
  import opened Configuration
  import opened Archive
  import opened MetadataRecord

  /** The master CSV file as `process_file` finds it: missing, present but not
      readable as CSV, or holding a table. */
  datatype MasterFile = Absent | Unparsable | Stored(table: Table)

  /** One archived input file and the cluster summary logged for it. */
  datatype ArchiveRecord = ArchiveRecord(source: string, clusters: string)

  /** What the monitor writes: the master file, the metadata record and the
      files moved to the archive, in order. */
  datatype Store = Store(master: MasterFile, metadata: Option<Metadata>, archived: seq<ArchiveRecord>)

  /** What processing one path runs into: whether its bytes decode in the
      configured encoding, the frame `read_csv` makes of them (`None` when it
      raises), and whether the master-file lock was obtained before its timeout. */
  datatype FileInput = FileInput(decodes: bool, parsed: Option<Table>, lockAcquired: bool)

  /** Why `process_file` raised for one file. */
  datatype FileError = Rejected(reason: Failure) | LockTimeout

  /** Lines 190-196: the frame the incoming one is merged into. */
  function BaseTable(master: MasterFile, incoming: Table): Table
  {
    match master
    case Stored(t) => t
    case _ => EmptyLike(incoming)
  }

  /** The file passes validation (lines 182-187) and gets the lock (line 189). */
  predicate Accepts(cfg: Config, input: FileInput)
  {
    LoadIncoming(input.decodes, input.parsed, cfg.keyColumn, cfg.requiredColumns).Ok? && input.lockAcquired
  }

  /** Lines 180-219: `process_file`. Nothing is written unless the file is
      accepted and the monitor is not in dry-run mode; then the master becomes the
      merge, the metadata describes it, and the file is archived with a summary
      of its own keys. */
  function ProcessFileSpec(cfg: Config, dryRun: bool, store: Store, path: string, input: FileInput)
    : (r: (Outcome<FileError>, Store))
    ensures r.0 == Pass <==> Accepts(cfg, input)
    ensures LoadIncoming(input.decodes, input.parsed, cfg.keyColumn, cfg.requiredColumns).Err? ==>
      r.0 == Fail(Rejected(LoadIncoming(input.decodes, input.parsed, cfg.keyColumn, cfg.requiredColumns).error))
    ensures r.0 == Fail(LockTimeout) <==>
      LoadIncoming(input.decodes, input.parsed, cfg.keyColumn, cfg.requiredColumns).Ok? && !input.lockAcquired
    ensures r.0.Fail? || dryRun ==> r.1 == store
    ensures r.0 == Pass && !dryRun ==>
      && var t := input.parsed.value;
      && var merged := Merge(BaseTable(store.master, t), t, cfg.keyColumn);
      && r.1.master == Stored(merged)
      && r.1.metadata == Some(MetadataOf(merged))
      && r.1.archived == store.archived
           + [ArchiveRecord(path, ClusterDisplay(Column(t.rows, cfg.keyColumn), cfg.maxClustersInLog))]
  {
    match LoadIncoming(input.decodes, input.parsed, cfg.keyColumn, cfg.requiredColumns)
    case Err(e) => (Fail(Rejected(e)), store)
    case Ok(t) =>
      if !input.lockAcquired then (Fail(LockTimeout), store)
      else
        var base := BaseTable(store.master, t);
        var merged := Merge(base, t, cfg.keyColumn);
        if dryRun then (Pass, store)
        else
          var cols := AllColumns(base, t);
          assert cfg.keyColumn in Elems(t.columns);
          ReindexKeepsColumn(t.rows, cols, cfg.keyColumn);
          var keys := Column(ReindexRows(t.rows, cols), cfg.keyColumn);
          var record := ArchiveRecord(path, ClusterDisplay(keys, cfg.maxClustersInLog));
          (Pass, Store(Stored(merged), Some(MetadataOf(merged)), store.archived + [record]))
  }

  /** `_archive_file` is handed the reindexed incoming frame; its key column is
      the one the file had. */
  lemma ReindexKeepsColumn(rows: seq<Row>, cols: seq<string>, key: string)
    requires key in cols
    ensures Column(ReindexRows(rows, cols), key) == Column(rows, key)
  {
    forall i | 0 <= i < |rows| ensures Get(ReindexRows(rows, cols)[i], key) == Get(rows[i], key) {
      ReindexKeepsCells(rows[i], cols, key);
    }
  }

  /** Lines 173-178: the store after processing `paths` in order; a failing file
      leaves the store as it was and the next file is processed all the same. */
  function ProcessPaths(cfg: Config, dryRun: bool, store: Store, paths: seq<string>,
                        inputs: string -> FileInput): Store
  {
    if |paths| == 0 then store
    else
      var last := paths[|paths| - 1];
      ProcessFileSpec(cfg, dryRun, ProcessPaths(cfg, dryRun, store, paths[..|paths| - 1], inputs),
                      last, inputs(last)).1
  }

  /** The paths whose files are accepted, in order. */
  function AcceptedPaths(cfg: Config, paths: seq<string>, inputs: string -> FileInput): (r: seq<string>)
    ensures forall p :: p in r <==> p in paths && Accepts(cfg, inputs(p))
  {
    if |paths| == 0 then []
    else
      var p := paths[..|paths| - 1];
      var last := paths[|paths| - 1];
      assert paths == p + [last];
      if Accepts(cfg, inputs(last)) then AcceptedPaths(cfg, p, inputs) + [last]
      else AcceptedPaths(cfg, p, inputs)
  }

  function Sources(records: seq<ArchiveRecord>): (r: seq<string>)
    ensures |r| == |records|
    ensures forall i :: 0 <= i < |records| ==> r[i] == records[i].source
  {
    seq(|records|, i requires 0 <= i < |records| => records[i].source)
  }

  /** A dry run writes nothing, however many files it goes through. */
  lemma {:induction false} DryRunChangesNothing(cfg: Config, store: Store, paths: seq<string>,
                                               inputs: string -> FileInput)
    ensures ProcessPaths(cfg, true, store, paths, inputs) == store
  {
    if |paths| > 0 {
      DryRunChangesNothing(cfg, store, paths[..|paths| - 1], inputs);
    }
  }

  /** Lines 173-178 with lines 211-217: outside dry-run mode exactly the accepted
      files are archived, in the order they were processed; a rejected file does
      not stop the files after it. */
  lemma {:induction false} ArchivedAreAccepted(cfg: Config, store: Store, paths: seq<string>,
                                              inputs: string -> FileInput)
    ensures Sources(ProcessPaths(cfg, false, store, paths, inputs).archived)
         == Sources(store.archived) + AcceptedPaths(cfg, paths, inputs)
  {
    if |paths| > 0 {
      var p := paths[..|paths| - 1];
      var last := paths[|paths| - 1];
      ArchivedAreAccepted(cfg, store, p, inputs);
      var before := ProcessPaths(cfg, false, store, p, inputs);
      ArchiveStep(cfg, before, last, inputs(last));
    }
  }

  /** One file adds its own path to the archive exactly when it is accepted. */
  lemma ArchiveStep(cfg: Config, store: Store, path: string, input: FileInput)
    ensures Sources(ProcessFileSpec(cfg, false, store, path, input).1.archived)
         == Sources(store.archived) + if Accepts(cfg, input) then [path] else []
  {
    var after := ProcessFileSpec(cfg, false, store, path, input).1;
    if Accepts(cfg, input) {
      var record :| after.archived == store.archived + [record] && record.source == path;
      SourcesAppend(store.archived, record);
    }
  }

  lemma SourcesAppend(records: seq<ArchiveRecord>, r: ArchiveRecord)
    ensures Sources(records + [r]) == Sources(records) + [r.source]
  {
  }

  /** What every merge leaves in the files: a master whose columns are strictly
      ascending, hold the key, and are carried by every row, whose keys are all
      present, and a metadata record that describes it. */
  predicate Consistent(cfg: Config, store: Store)
  {
    && (store.master.Stored? ==>
          var t := store.master.table;
          && StrictlySorted(t.columns)
          && cfg.keyColumn in t.columns
          && WellFormed(t)
          && KeysNonNull(t.rows, cfg.keyColumn))
    && (store.metadata.Some? ==>
          store.master.Stored? && store.metadata.value == MetadataOf(store.master.table))
  }

  /** One file keeps the files consistent. */
  lemma ProcessFileKeepsConsistent(cfg: Config, dryRun: bool, store: Store, path: string, input: FileInput)
    requires Consistent(cfg, store)
    ensures Consistent(cfg, ProcessFileSpec(cfg, dryRun, store, path, input).1)
  {
    if Accepts(cfg, input) && !dryRun {
      var t := input.parsed.value;
      var base := BaseTable(store.master, t);
      assert KeysNonNull(base.rows, cfg.keyColumn);
      UpsertSchema(base, t, cfg.keyColumn);
      UpsertKeepsKeysNonNull(base, t, cfg.keyColumn);
    }
  }

  /** Lines 173-178: a whole run keeps the files consistent. */
  lemma {:induction false} ProcessPathsKeepsConsistent(cfg: Config, dryRun: bool, store: Store,
                                                      paths: seq<string>, inputs: string -> FileInput)
    requires Consistent(cfg, store)
    ensures Consistent(cfg, ProcessPaths(cfg, dryRun, store, paths, inputs))
  {
    if |paths| > 0 {
      var p := paths[..|paths| - 1];
      var last := paths[|paths| - 1];
      ProcessPathsKeepsConsistent(cfg, dryRun, store, p, inputs);
      ProcessFileKeepsConsistent(cfg, dryRun, ProcessPaths(cfg, dryRun, store, p, inputs), last, inputs(last));
    }
  }

  /** The monitor object; its only state is the dry-run switch. */
  class WatchdogMonitor {
    const dryRun: bool

    constructor (dryRun: bool)
      ensures this.dryRun == dryRun
    {
      this.dryRun := dryRun;
    }

    /** Lines 180-219, step by step: validate, take the lock, read the master,
        merge on a frame, and write unless in dry-run mode. */
    method ProcessFile(cfg: Config, store: Store, path: string, input: FileInput)
      returns (outcome: Outcome<FileError>, next: Store)
      ensures (outcome, next) == ProcessFileSpec(cfg, dryRun, store, path, input)
    {
      var loaded := LoadIncoming(input.decodes, input.parsed, cfg.keyColumn, cfg.requiredColumns);
      if loaded.Err? {
        return Fail(Rejected(loaded.error)), store;
      }
      var incoming := loaded.value;
      if !input.lockAcquired {
        return Fail(LockTimeout), store;
      }
      var base := BaseTable(store.master, incoming);
      var frame := MergeFrames(base, incoming, cfg.keyColumn);
      var merged := frame.Value();
      if dryRun {
        return Pass, store;
      }
      var cols := AllColumns(base, incoming);
      var keys := Column(ReindexRows(incoming.rows, cols), cfg.keyColumn);
      var record := ArchiveRecord(path, ClusterDisplay(keys, cfg.maxClustersInLog));
      outcome := Pass;
      next := Store(Stored(merged), Some(MetadataOf(merged)), store.archived + [record]);
    }

    /** Lines 173-178: process every stable file of the inbox in order; an error
        from one file is logged (not modelled) and the loop continues. */
    method ProcessAll(cfg: Config, store: Store, listing: seq<DirEntry>, md5: seq<bv8> -> string,
                      inputs: string -> FileInput)
      returns (result: Store)
      ensures result == ProcessPaths(cfg, dryRun, store,
        StableFiles(cfg.watchDir, listing, cfg.supportedExtensions, cfg.maxFileSizeMb, md5), inputs)
    {
      var paths := GetStableFiles(cfg.watchDir, listing, cfg.supportedExtensions, cfg.maxFileSizeMb, md5);
      result := store;
      for i := 0 to |paths|
        invariant result == ProcessPaths(cfg, dryRun, store, paths[..i], inputs)
      {
        assert paths[..i + 1][..i] == paths[..i];
        var outcome, next := ProcessFile(cfg, result, paths[i], inputs(paths[i]));
        result := next;
      }
      assert paths[..|paths|] == paths;
    }
  }
}
