/** The cluster summary `_archive_file` writes to the log after moving an
    accepted file to the archive directory: the distinct keys of the file, at
    most a configured number of them, sorted, comma-separated, and followed by
    the total when some were left out. */
module Archive {
  import opened Common
  import opened Strings
  import opened Tables

  /** `str` of a key value; pandas shows a null as `nan`. */
  function KeyText(c: Cell): string
  {
    match c
    case Some(s) => s
    case None => "nan"
  }

  /** `map(str, cells)`. */
  function Texts(cells: seq<Cell>): (r: seq<string>)
    ensures |r| == |cells|
    ensures forall i :: 0 <= i < |cells| ==> r[i] == KeyText(cells[i])
  {
    seq(|cells|, i requires 0 <= i < |cells| => KeyText(cells[i]))
  }

  /** Python's slice `s[:n]`: the first `n` elements, or all but the last `-n`
      when `n` is negative. */
  function Take<T>(s: seq<T>, n: int): (r: seq<T>)
    ensures r <= s
    ensures |r| == if n >= 0 then (if n < |s| then n else |s|) else (if |s| + n > 0 then |s| + n else 0)
  {
    if n >= |s| then s
    else if n >= 0 then s[..n]
    else if |s| + n > 0 then s[..|s| + n]
    else []
  }

  /** Line 226 before the join: the first `max` distinct keys, as text, sorted. */
  function Shown(keys: seq<Cell>, max: int): (r: seq<string>)
    ensures Sorted(r)
    ensures multiset(r) == multiset(Texts(Take(Distinct(keys), max)))
  {
    Sort(Texts(Take(Distinct(keys), max)))
  }

  /** Line 228: the note added when keys were left out. */
  function TotalNote(n: nat): string
  {
    "... (" + NatToString(n) + " total)"
  }

  /** Lines 225-228: `clusters` is the distinct keys in first-occurrence order. */
  function ClusterDisplay(keys: seq<Cell>, max: int): string
  {
    var clusters := Distinct(keys);
    var listed := Join(Shown(keys, max), ", ");
    if |clusters| > max then listed + TotalNote(|clusters|) else listed
  }

  /** When there are at most `max` distinct keys, every key is listed, once,
      and no total is added. */
  lemma AllClustersListed(keys: seq<Cell>, max: int)
    requires |Distinct(keys)| <= max
    ensures ClusterDisplay(keys, max) == Join(Shown(keys, max), ", ")
    ensures multiset(Shown(keys, max)) == multiset(Texts(Distinct(keys)))
    ensures forall k :: k in keys ==> KeyText(k) in Shown(keys, max)
  {
    var d := Distinct(keys);
    assert Take(d, max) == d;
    forall k | k in keys ensures KeyText(k) in Shown(keys, max) {
      assert k in Elems(d);
      var i :| 0 <= i < |d| && d[i] == k;
      assert Texts(d)[i] == KeyText(k);
      assert KeyText(k) in multiset(Texts(d));
    }
  }

  /** When there are more than `max` distinct keys, exactly `max` of them are
      listed when `max` is not negative; a negative `max` slices like Python,
      listing all but the last `-max` of them, or none. The total follows,
      written so that it reads back as the number of distinct keys. */
  lemma SomeClustersListed(keys: seq<Cell>, max: int)
    requires |Distinct(keys)| > max
    ensures |Shown(keys, max)| == if max >= 0 then max else (if |Distinct(keys)| + max > 0 then |Distinct(keys)| + max else 0)
    ensures ClusterDisplay(keys, max) == Join(Shown(keys, max), ", ") + TotalNote(|Distinct(keys)|)
    ensures ParseNat(NatToString(|Distinct(keys)|)) == |Distinct(keys)|
  {
    var s := Shown(keys, max);
    assert |s| == |multiset(s)|;
    NatToStringRoundTrip(|Distinct(keys)|);
  }

  /** A file whose keys are already unique is its own list of clusters: the
      first `max` keys are listed and the total is its row count. */
  lemma UniqueKeysClusters(keys: seq<Cell>, max: int)
    requires NoDuplicates(keys) && |keys| > max
    ensures Shown(keys, max) == Sort(Texts(Take(keys, max)))
    ensures ClusterDisplay(keys, max) == Join(Shown(keys, max), ", ") + TotalNote(|keys|)
  {
    DistinctOfDistinct(keys);
  }

  /** The listed keys are the first `max` to appear: once that many distinct
      keys have been seen, later rows do not change the list. */
  lemma ShownFixedByFirstKeys(keys: seq<Cell>, more: seq<Cell>, max: int)
    requires 0 <= max <= |Distinct(keys)|
    ensures Shown(keys + more, max) == Shown(keys, max)
  {
    var all := keys + more;
    assert all[..|keys|] == keys;
    DistinctPrefix(all, |keys|);
    var d := Distinct(keys);
    var e := Distinct(all);
    assert d <= e;
    assert Take(d, max) == d[..max] == e[..max] == Take(e, max);
  }
}
