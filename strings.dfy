/** Python string operations the monitor relies on: the ordering used by `sorted`,
    insertion sorting, `str.lower`, `str.endswith`, `str.startswith`, `str.join`
    and formatting a count in decimal. */
module Strings {
  import opened Common

  /** Python's `<` on `str`: lexicographic on code points, a proper prefix first. */
  predicate Less(a: string, b: string)
  {
    if |a| == 0 then |b| > 0
    else if |b| == 0 then false
    else a[0] < b[0] || (a[0] == b[0] && Less(a[1..], b[1..]))
  }

  predicate LessEq(a: string, b: string)
  {
    a == b || Less(a, b)
  }

  lemma {:induction false} LessIrreflexive(a: string)
    ensures !Less(a, a)
  {
    if |a| > 0 {
      LessIrreflexive(a[1..]);
    }
  }

  lemma {:induction false} LessTransitive(a: string, b: string, c: string)
    requires Less(a, b) && Less(b, c)
    ensures Less(a, c)
  {
    if |a| > 0 && |b| > 0 && |c| > 0 && a[0] == b[0] == c[0] {
      LessTransitive(a[1..], b[1..], c[1..]);
    }
  }

  lemma {:induction false} LessTotal(a: string, b: string)
    ensures a == b || Less(a, b) || Less(b, a)
  {
    if |a| > 0 && |b| > 0 && a[0] == b[0] {
      LessTotal(a[1..], b[1..]);
      if a[1..] == b[1..] {
        assert a == [a[0]] + a[1..] && b == [b[0]] + b[1..];
      }
    }
  }

  lemma LessAsymmetric(a: string, b: string)
    requires Less(a, b)
    ensures !Less(b, a)
  {
    if Less(b, a) {
      LessTransitive(a, b, a);
      LessIrreflexive(a);
    }
  }

  /** Ascending, equal neighbours allowed (the output of `sorted`). */
  predicate Sorted(s: seq<string>)
  {
    forall i, j :: 0 <= i < j < |s| ==> LessEq(s[i], s[j])
  }

  /** Strictly ascending (the output of `sorted(set(...))`). */
  predicate StrictlySorted(s: seq<string>)
  {
    forall i, j :: 0 <= i < j < |s| ==> Less(s[i], s[j])
  }

  /** Puts `x` into an ascending list, in front of the first element not below it. */
  function Insert(x: string, s: seq<string>): (r: seq<string>)
    requires Sorted(s)
    ensures Sorted(r)
    ensures multiset(r) == multiset(s) + multiset{x}
    ensures r[0] == x || (|s| > 0 && r[0] == s[0])
  {
    if |s| == 0 then [x]
    else if LessEq(x, s[0]) then
      SortedCons(x, s);
      [x] + s
    else
      var rest := Insert(x, s[1..]);
      LessTotal(x, s[0]);
      assert s == [s[0]] + s[1..];
      SortedCons(s[0], rest);
      [s[0]] + rest
  }

  lemma SortedCons(h: string, t: seq<string>)
    requires Sorted(t)
    requires |t| > 0 ==> LessEq(h, t[0])
    ensures Sorted([h] + t)
  {
    forall k | 0 < k < |t| ensures LessEq(h, t[k]) {
      if h != t[0] && t[0] != t[k] { LessTransitive(h, t[0], t[k]); }
    }
  }

  /** Python's `sorted` on a list of strings: an ascending permutation of the input. */
  function Sort(s: seq<string>): (r: seq<string>)
    ensures Sorted(r)
    ensures multiset(r) == multiset(s)
  {
    if |s| == 0 then []
    else
      assert s == s[..|s| - 1] + [s[|s| - 1]];
      Insert(s[|s| - 1], Sort(s[..|s| - 1]))
  }

  /** `sorted(set(xs))`: the distinct elements of `xs`, strictly ascending. */
  function SortedSet(xs: seq<string>): (r: seq<string>)
    ensures StrictlySorted(r)
    ensures Elems(r) == Elems(xs)
  {
    var d := Distinct(xs);
    var r := Sort(d);
    NoDuplicatesPermutation(d, r);
    assert forall x :: x in r <==> x in multiset(r);
    assert forall x :: x in d <==> x in multiset(d);
    r
  }

  /** A strictly ascending list repeats nothing. */
  lemma StrictlySortedNoDuplicates(s: seq<string>)
    requires StrictlySorted(s)
    ensures NoDuplicates(s)
  {
    forall i, j | 0 <= i < j < |s| ensures s[i] != s[j] {
      LessIrreflexive(s[i]);
    }
  }

  /** A finite set of strings has exactly one strictly ascending listing, so
      `sorted(set(...))` does not depend on the order the set is visited in. */
  lemma {:induction false} StrictlySortedUnique(s: seq<string>, t: seq<string>)
    requires StrictlySorted(s) && StrictlySorted(t)
    requires Elems(s) == Elems(t)
    ensures s == t
  {
    if |s| == 0 {
      HeadInElems(t);
    } else {
      assert s[0] in Elems(s) && |t| > 0;
      assert t[0] in Elems(t);
      if s[0] != t[0] {
        var k :| 0 <= k < |s| && s[k] == t[0];
        var m :| 0 <= m < |t| && t[m] == s[0];
        assert Less(s[0], t[0]);
        assert Less(t[0], s[0]);
        LessAsymmetric(s[0], t[0]);
      }
      assert s[0] !in s[1..] by {
        forall k | 1 <= k < |s| ensures s[k] != s[0] { LessIrreflexive(s[0]); }
      }
      assert t[0] !in t[1..] by {
        forall k | 1 <= k < |t| ensures t[k] != t[0] { LessIrreflexive(t[0]); }
      }
      assert Elems(s) == {s[0]} + Elems(s[1..]);
      assert Elems(t) == {t[0]} + Elems(t[1..]);
      assert Elems(s[1..]) == Elems(t[1..]);
      StrictlySortedUnique(s[1..], t[1..]);
      assert s == [s[0]] + s[1..] && t == [t[0]] + t[1..];
    }
  }

  /** `str.lower()` restricted to ASCII letters. */
  function Lower(s: string): (r: string)
    ensures |r| == |s|
    ensures forall i :: 0 <= i < |s| ==>
      r[i] == (if 'A' <= s[i] <= 'Z' then (s[i] as int + 32) as char else s[i])
  {
    if |s| == 0 then []
    else
      var c := s[0];
      [if 'A' <= c <= 'Z' then (c as int + 32) as char else c] + Lower(s[1..])
  }

  predicate StartsWith(s: string, prefix: string)
  {
    |prefix| <= |s| && s[..|prefix|] == prefix
  }

  predicate EndsWith(s: string, suffix: string)
  {
    |suffix| <= |s| && s[|s| - |suffix|..] == suffix
  }

  /** `sep.join(parts)`: the parts in order with `sep` between them, so the
      text begins with the first part and ends with the last. */
  function Join(parts: seq<string>, sep: string): (r: string)
    ensures |parts| > 0 ==> StartsWith(r, parts[0]) && EndsWith(r, parts[|parts| - 1])
    ensures |parts| > 1 ==> StartsWith(r, parts[0] + sep)
  {
    if |parts| == 0 then ""
    else if |parts| == 1 then parts[0]
    else parts[0] + sep + Join(parts[1..], sep)
  }

  /** Python `str(n)` for a natural number: its decimal digits, no leading zeros. */
  function NatToString(n: nat): (r: string)
    ensures |r| > 0
    ensures forall i :: 0 <= i < |r| ==> '0' <= r[i] <= '9'
    ensures r[0] == '0' ==> n == 0
    decreases n
  {
    if n < 10 then [Digit(n)]
    else NatToString(n / 10) + [Digit(n % 10)]
  }

  function Digit(d: nat): (c: char)
    requires d < 10
    ensures '0' <= c <= '9' && c as int - '0' as int == d
  {
    ('0' as int + d) as char
  }

  /** Reads decimal digits back: the inverse of `NatToString`. */
  function ParseNat(s: string): nat
    requires forall i :: 0 <= i < |s| ==> '0' <= s[i] <= '9'
  {
    if |s| == 0 then 0
    else ParseNat(s[..|s| - 1]) * 10 + (s[|s| - 1] as int - '0' as int)
  }

  lemma {:induction false} NatToStringRoundTrip(n: nat)
    ensures ParseNat(NatToString(n)) == n
  {
    if n >= 10 {
      NatToStringRoundTrip(n / 10);
      var s := NatToString(n);
      assert s[..|s| - 1] == NatToString(n / 10);
    }
  }
}
