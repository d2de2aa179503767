/** Option and pass/fail outcomes shared by the other modules. */
module Common {

  /** A value that may be absent; a table cell that pandas holds as NaN is `None`. */
  datatype Option<+T> = None | Some(value: T)

  /** The result of a check that either passes or reports why it failed. */
  datatype Outcome<+E> = Pass | Fail(error: E)

  /** A value, or the reason it could not be produced (a raised exception). */
  datatype Result<+T, +E> = Ok(value: T) | Err(error: E)

  /** The set of elements of a sequence. */
  function Elems<T>(s: seq<T>): set<T>
  {
    set x | x in s
  }

  lemma HeadInElems<T>(s: seq<T>)
    ensures |s| > 0 ==> s[0] in Elems(s)
  {
  }

  /** No element occurs twice. */
  predicate NoDuplicates<T(==)>(s: seq<T>)
  {
    forall i, j :: 0 <= i < j < |s| ==> s[i] != s[j]
  }

  /** pandas `unique()`: the distinct elements of `s`, each at its first occurrence. */
  function Distinct<T(==)>(s: seq<T>): (r: seq<T>)
    ensures NoDuplicates(r)
    ensures Elems(r) == Elems(s)
    ensures |r| <= |s|
  {
    if |s| == 0 then []
    else
      var p := Distinct(s[..|s| - 1]);
      assert s == s[..|s| - 1] + [s[|s| - 1]];
      assert Elems(s) == Elems(s[..|s| - 1]) + {s[|s| - 1]};
      if s[|s| - 1] in p then p else p + [s[|s| - 1]]
  }

  /** Unique elements come out in first-occurrence order: the distinct elements of a
      prefix are a prefix of the distinct elements of the whole. */
  lemma {:induction false} DistinctPrefix<T>(s: seq<T>, k: nat)
    requires k <= |s|
    ensures Distinct(s[..k]) <= Distinct(s)
  {
    if k < |s| {
      DistinctPrefix(s[..|s| - 1], k);
      assert s[..|s| - 1][..k] == s[..k];
    } else {
      assert s[..k] == s;
    }
  }

  /** A sequence without duplicates is its own `unique()`. */
  lemma {:induction false} DistinctOfDistinct<T>(s: seq<T>)
    requires NoDuplicates(s)
    ensures Distinct(s) == s
  {
    if |s| > 0 {
      var p := s[..|s| - 1];
      assert NoDuplicates(p);
      DistinctOfDistinct(p);
      assert s[|s| - 1] !in p;
      assert p + [s[|s| - 1]] == s;
    }
  }

  /** Appending an element not yet present keeps a sequence duplicate-free. */
  lemma AppendNew<T>(s: seq<T>, x: T)
    requires NoDuplicates(s) && x !in s
    ensures NoDuplicates(s + [x])
  {
  }

  /** Multiset equality keeps a sequence duplicate-free. */
  lemma NoDuplicatesPermutation<T>(s: seq<T>, t: seq<T>)
    requires NoDuplicates(s) && multiset(s) == multiset(t)
    ensures NoDuplicates(t)
  {
    CountsOfNoDuplicates(s);
    forall i, j | 0 <= i < j < |t| ensures t[i] != t[j] {
      EqualPairCount(t, i, j);
    }
  }

  lemma EqualPairCount<T>(t: seq<T>, i: nat, j: nat)
    requires i < j < |t|
    ensures t[i] == t[j] ==> multiset(t)[t[i]] >= 2
  {
    assert t == t[..i] + [t[i]] + t[i + 1..j] + [t[j]] + t[j + 1..];
  }

  lemma {:induction false} CountsOfNoDuplicates<T>(s: seq<T>)
    requires NoDuplicates(s)
    ensures forall x :: multiset(s)[x] <= 1
  {
    if |s| > 0 {
      var p := s[..|s| - 1];
      assert NoDuplicates(p);
      CountsOfNoDuplicates(p);
      assert s == p + [s[|s| - 1]];
      assert s[|s| - 1] !in multiset(p);
    }
  }

  /** A duplicate-free sequence has as many elements as its set. */
  lemma {:induction false} NoDuplicatesCard<T>(s: seq<T>)
    requires NoDuplicates(s)
    ensures |Elems(s)| == |s|
  {
    if |s| > 0 {
      var p := s[..|s| - 1];
      var x := s[|s| - 1];
      assert NoDuplicates(p);
      NoDuplicatesCard(p);
      assert s == p + [x];
      assert Elems(s) == Elems(p) + {x};
      assert x !in Elems(p);
    }
  }
}
