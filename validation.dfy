/** The checks an incoming file goes through before it may touch the master
    file: it must decode, it must parse as CSV, and the parsed frame must pass
    `validate_dataframe`. */
module Validation {
  import opened Common
  import opened Tables

  /** Why an incoming file is rejected: the `FileProcessingError`s of decoding
      and loading, then the `DataValidationError`s in the order they are checked. */
  datatype Failure =
    | NotDecodable
    | LoadFailed
    | EmptyFrame
    | MissingKey
    | MissingRequired(missing: set<string>)
    | NullKeys

  /** `set(REQUIRED_COLUMNS) - set(df.columns)`. */
  function MissingColumns(t: Table, required: seq<string>): set<string>
  {
    Elems(required) - Elems(t.columns)
  }

  lemma MissingColumnsMeaning(t: Table, required: seq<string>)
    ensures MissingColumns(t, required) == {} <==> Elems(required) <= Elems(t.columns)
    ensures Elems(required) <= Elems(t.columns) <==> forall c :: c in required ==> c in t.columns
  {
    if MissingColumns(t, required) == {} {
      forall c | c in Elems(required) ensures c in Elems(t.columns) {
        assert c !in MissingColumns(t, required);
      }
    }
    if forall c :: c in required ==> c in t.columns {
      forall c | c in Elems(required) ensures c in Elems(t.columns) {
        assert c in required;
      }
    }
    if Elems(required) <= Elems(t.columns) {
      forall c | c in required ensures c in t.columns {
        assert c in Elems(required);
      }
    }
  }

  /** `df[KEY_COLUMN].isna().any()`: some row has no key. */
  predicate HasNullKey(t: Table, key: string)
  {
    exists i :: 0 <= i < |t.rows| && Get(t.rows[i], key) == None
  }

  /** Lines 156-165: the first failing check wins; a frame that passes has rows
      and columns, the key column, every required column, and a key in every row. */
  function ValidateTable(t: Table, key: string, required: seq<string>): (r: Outcome<Failure>)
    ensures r == Fail(EmptyFrame) <==> IsEmpty(t)
    ensures r == Fail(MissingKey) <==> !IsEmpty(t) && key !in t.columns
    ensures r.Fail? && r.error.MissingRequired? <==>
      !IsEmpty(t) && key in t.columns && !(Elems(required) <= Elems(t.columns))
    ensures r.Fail? && r.error.MissingRequired? ==>
      r.error.missing != {} && forall c :: c in r.error.missing <==> c in required && c !in t.columns
    ensures r == Fail(NullKeys) <==>
      !IsEmpty(t) && key in t.columns && Elems(required) <= Elems(t.columns) && HasNullKey(t, key)
    ensures r == Pass <==>
      && |t.rows| > 0 && |t.columns| > 0
      && key in t.columns
      && (forall c :: c in required ==> c in t.columns)
      && KeysNonNull(t.rows, key)
  {
    MissingColumnsMeaning(t, required);
    if IsEmpty(t) then Fail(EmptyFrame)
    else if key !in t.columns then Fail(MissingKey)
    else if MissingColumns(t, required) != {} then Fail(MissingRequired(MissingColumns(t, required)))
    else if HasNullKey(t, key) then Fail(NullKeys)
    else Pass
  }

  /** Lines 182-187: the encoding check runs first (`validate_utf8`), then the CSV
      parse, then `validate_dataframe`. The decoder and the parser are not modelled:
      `decodes` says whether the bytes decode in the configured encoding and
      `parsed` is the frame `read_csv` produces, or `None` when it raises. */
  function LoadIncoming(decodes: bool, parsed: Option<Table>, key: string, required: seq<string>)
    : (r: Result<Table, Failure>)
    ensures r == Err(NotDecodable) <==> !decodes
    ensures r == Err(LoadFailed) <==> decodes && parsed.None?
    ensures r.Ok? <==> decodes && parsed.Some? && ValidateTable(parsed.value, key, required) == Pass
    ensures r.Ok? ==> r.value == parsed.value && key in r.value.columns && KeysNonNull(r.value.rows, key)
    ensures decodes && parsed.Some? && ValidateTable(parsed.value, key, required).Fail? ==>
      r == Err(ValidateTable(parsed.value, key, required).error)
  {
    if !decodes then Err(NotDecodable)
    else if parsed.None? then Err(LoadFailed)
    else
      match ValidateTable(parsed.value, key, required)
      case Fail(e) => Err(e)
      case Pass => Ok(parsed.value)
  }

  /** A file that does not decode is rejected for that reason whatever its
      contents would have parsed to: no structural check is reached. */
  lemma EncodingCheckedFirst(p: Option<Table>, q: Option<Table>, key: string, required: seq<string>)
    ensures LoadIncoming(false, p, key, required) == LoadIncoming(false, q, key, required) == Err(NotDecodable)
  {
  }
}
