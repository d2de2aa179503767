/** The monitor's settings and the check `_validate_config` runs on them before
    anything else happens. */
module Configuration {
  import opened Common
  import opened Strings

  /** The settings the modelled code reads. Logging, lock, delimiter, encoding,
      chunk size and wait settings only feed code that is not part of this model. */
  datatype Config = Config(
    watchDir: string,
    archiveDir: string,
    mergedFile: string,
    metadataFile: string,
    keyColumn: string,
    requiredColumns: seq<string>,
    maxFileSizeMb: int,
    supportedExtensions: seq<string>,
    maxClustersInLog: int)

  /** The built-in settings used when no configuration file exists. */
  const Default := Config(
    "csv_inbox", "csv_archive", "final_clusters_data.csv", "merged_metadata.json",
    "cluster_name", [], 500, [".csv"], 20)

  /** The two `ConfigurationError`s, in the order they are checked. */
  datatype ConfigError = MissingKeyColumn | BadExtension

  /** Lines 72-76: the key column must be a non-empty name, and then every
      supported extension must begin with a dot. */
  function ValidateConfig(c: Config): (r: Outcome<ConfigError>)
    ensures r == Fail(MissingKeyColumn) <==> c.keyColumn == ""
    ensures r == Fail(BadExtension) <==>
      c.keyColumn != "" && exists i :: 0 <= i < |c.supportedExtensions| && !StartsWith(c.supportedExtensions[i], ".")
    ensures r == Pass <==>
      c.keyColumn != "" && forall e :: e in c.supportedExtensions ==> |e| > 0 && e[0] == '.'
  {
    if c.keyColumn == "" then Fail(MissingKeyColumn)
    else if !AllStartWithDot(c.supportedExtensions) then Fail(BadExtension)
    else Pass
  }

  /** `all(ext.startswith('.') for ext in exts)`, one extension at a time. */
  function AllStartWithDot(exts: seq<string>): (b: bool)
    ensures b <==> forall i :: 0 <= i < |exts| ==> StartsWith(exts[i], ".")
  {
    if |exts| == 0 then true
    else StartsWith(exts[0], ".") && AllStartWithDot(exts[1..])
  }

  /** The built-in settings pass their own check. */
  lemma DefaultIsValid()
    ensures ValidateConfig(Default) == Pass
  {
    assert StartsWith(".csv", ".");
  }
}
