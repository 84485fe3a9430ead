/** The two uses of `Array.prototype.sort` in the core: a comparator that
    subtracts integer keys, and the default comparator on strings. Since
    ES2019 the sort is stable, so both are modelled as insertion sorts that
    keep equal elements in their original order. */
module Sorting {

  // ---------------------------------------------------------------------
  // Sorting by an integer key (`sort((a, b) => key(a) - key(b))`)
  // ---------------------------------------------------------------------

  predicate SortedBy<T>(s: seq<T>, key: T -> int) {
    forall i, j :: 0 <= i < j < |s| ==> key(s[i]) <= key(s[j])
  }

  /** The elements of `s` whose key is `k`, in order. */
  function WithKey<T>(s: seq<T>, key: T -> int, k: int): seq<T> {
    if s == [] then [] else (if key(s[0]) == k then [s[0]] else []) + WithKey(s[1..], key, k)
  }

  /** Inserts `x` in front of the first element whose key is not smaller. */
  function InsertByKey<T>(x: T, s: seq<T>, key: T -> int): (r: seq<T>)
    ensures multiset(r) == multiset(s) + multiset{x}
    ensures |r| == |s| + 1
    ensures forall m :: 0 <= m < |r| ==> r[m] == x || r[m] in s
  {
    if s == [] || key(x) <= key(s[0]) then [x] + s
    else
      assert s == [s[0]] + s[1..];
      [s[0]] + InsertByKey(x, s[1..], key)
  }

  lemma {:induction false} InsertByKeySorted<T>(x: T, s: seq<T>, key: T -> int)
    requires SortedBy(s, key)
    ensures SortedBy(InsertByKey(x, s, key), key)
  {
    if s != [] && key(x) > key(s[0]) {
      InsertByKeySorted(x, s[1..], key);
      var rest := InsertByKey(x, s[1..], key);
      assert forall m :: 0 <= m < |rest| ==> key(s[0]) <= key(rest[m]);
      assert InsertByKey(x, s, key) == [s[0]] + rest;
    }
  }

  /** A stable sort by ascending key. */
  function SortByKey<T>(s: seq<T>, key: T -> int): (r: seq<T>)
    ensures multiset(r) == multiset(s)
    ensures |r| == |s|
    ensures SortedBy(r, key)
  {
    if s == [] then []
    else
      assert s == [s[0]] + s[1..];
      var rest := SortByKey(s[1..], key);
      InsertByKeySorted(s[0], rest, key);
      InsertByKey(s[0], rest, key)
  }

  lemma {:induction false} InsertByKeyStable<T>(x: T, s: seq<T>, key: T -> int, k: int)
    ensures WithKey(InsertByKey(x, s, key), key, k) == (if key(x) == k then [x] else []) + WithKey(s, key, k)
  {
    if s == [] || key(x) <= key(s[0]) {
      var r := [x] + s;
      assert r[0] == x && r[1..] == s;
    } else {
      var rest := InsertByKey(x, s[1..], key);
      InsertByKeyStable(x, s[1..], key, k);
      var r := [s[0]] + rest;
      assert r[0] == s[0] && r[1..] == rest;
      if key(x) == k {
        assert key(s[0]) != k;
        assert WithKey(r, key, k) == WithKey(rest, key, k) == [x] + WithKey(s[1..], key, k);
        assert WithKey(s, key, k) == WithKey(s[1..], key, k);
      } else {
        assert WithKey(rest, key, k) == WithKey(s[1..], key, k);
        assert [] + WithKey(s, key, k) == WithKey(s, key, k);
      }
    }
  }

  /** Stability: for every key, the elements carrying it keep their order. */
  lemma {:induction false} SortByKeyStable<T>(s: seq<T>, key: T -> int, k: int)
    ensures WithKey(SortByKey(s, key), key, k) == WithKey(s, key, k)
  {
    if s != [] {
      SortByKeyStable(s[1..], key, k);
      InsertByKeyStable(s[0], SortByKey(s[1..], key), key, k);
    }
  }

  // ---------------------------------------------------------------------
  // The default string order (`sort()` on strings)
  // ---------------------------------------------------------------------

  /** The position of a character in UTF-16 code-unit order: a character
      beyond the Basic Multilingual Plane is written with a surrogate pair,
      whose first unit lies between U+D7FF and U+E000. */
  function UnitRank(c: char): int {
    var n := c as int;
    if n < 0xD800 || n >= 0x10000 then n else n + 0x200000
  }

  /** `a < b` as JavaScript compares strings: lexicographically by UTF-16
      code units, a proper prefix coming first. */
  predicate StrLess(a: string, b: string) {
    if a == [] then b != []
    else if b == [] then false
    else if a[0] != b[0] then UnitRank(a[0]) < UnitRank(b[0])
    else StrLess(a[1..], b[1..])
  }

  lemma {:induction false} UnitRankInjective(c: char, d: char)
    requires c != d
    ensures UnitRank(c) != UnitRank(d)
  {
  }

  lemma {:induction false} StrLessIrreflexive(a: string)
    ensures !StrLess(a, a)
  {
    if a != [] {
      StrLessIrreflexive(a[1..]);
    }
  }

  lemma {:induction false} StrLessAsymmetric(a: string, b: string)
    requires StrLess(a, b)
    ensures !StrLess(b, a)
  {
    if a != [] && b != [] && a[0] == b[0] {
      StrLessAsymmetric(a[1..], b[1..]);
    }
  }

  lemma {:induction false} StrLessTransitive(a: string, b: string, c: string)
    requires StrLess(a, b) && StrLess(b, c)
    ensures StrLess(a, c)
  {
    if a != [] && b != [] && c != [] && a[0] == b[0] == c[0] {
      StrLessTransitive(a[1..], b[1..], c[1..]);
    } else if a != [] && b != [] && c != [] {
      if a[0] == b[0] {
        assert UnitRank(b[0]) < UnitRank(c[0]);
      } else if b[0] == c[0] {
        assert UnitRank(a[0]) < UnitRank(b[0]);
      } else {
        assert UnitRank(a[0]) < UnitRank(b[0]) < UnitRank(c[0]);
      }
    }
  }

  lemma {:induction false} StrLessTotal(a: string, b: string)
    requires a != b
    ensures StrLess(a, b) || StrLess(b, a)
  {
    if a != [] && b != [] {
      if a[0] == b[0] {
        assert a == [a[0]] + a[1..] && b == [b[0]] + b[1..];
        StrLessTotal(a[1..], b[1..]);
      } else {
        UnitRankInjective(a[0], b[0]);
      }
    }
  }

  /** No element is smaller than one before it. */
  predicate SortedStrings(s: seq<string>) {
    forall i, j :: 0 <= i < j < |s| ==> !StrLess(s[j], s[i])
  }

  predicate StrictlyAscending(s: seq<string>) {
    forall i, j :: 0 <= i < j < |s| ==> StrLess(s[i], s[j])
  }

  function InsertString(x: string, s: seq<string>): (r: seq<string>)
    ensures multiset(r) == multiset(s) + multiset{x}
    ensures forall m :: 0 <= m < |r| ==> r[m] == x || r[m] in s
  {
    if s == [] || !StrLess(s[0], x) then [x] + s
    else
      assert s == [s[0]] + s[1..];
      [s[0]] + InsertString(x, s[1..])
  }

  lemma {:induction false} InsertStringSorted(x: string, s: seq<string>)
    requires SortedStrings(s)
    ensures SortedStrings(InsertString(x, s))
  {
    var r := InsertString(x, s);
    if s == [] {
    } else if !StrLess(s[0], x) {
      assert r == [x] + s;
      forall j | 1 < j < |r| ensures !StrLess(r[j], x) {
        if StrLess(s[j - 1], x) {
          StrLessTotal(s[0], x);
          if s[0] != x {
            StrLessTransitive(s[j - 1], x, s[0]);
          }
        }
      }
    } else {
      InsertStringSorted(x, s[1..]);
      var rest := InsertString(x, s[1..]);
      assert r == [s[0]] + rest;
      assert !StrLess(x, s[0]) by { StrLessAsymmetric(s[0], x); }
      assert forall m :: 0 <= m < |rest| ==> !StrLess(rest[m], s[0]);
    }
  }

  /** `strings.sort()`. */
  function SortStrings(s: seq<string>): (r: seq<string>)
    ensures multiset(r) == multiset(s)
    ensures SortedStrings(r)
  {
    if s == [] then []
    else
      assert s == [s[0]] + s[1..];
      var rest := SortStrings(s[1..]);
      InsertStringSorted(s[0], rest);
      InsertString(s[0], rest)
  }

  /** Sorting strings that are pairwise distinct gives a strictly ascending
      sequence holding exactly the same strings. */
  lemma {:induction false} SortDistinctStrings(s: seq<string>)
    requires forall i, j :: 0 <= i < j < |s| ==> s[i] != s[j]
    ensures StrictlyAscending(SortStrings(s))
    ensures forall x :: x in SortStrings(s) <==> x in s
    ensures |SortStrings(s)| == |s|
  {
    var r := SortStrings(s);
    assert |r| == |s| by { assert |multiset(r)| == |multiset(s)|; }
    forall x ensures x in r <==> x in s {
      assert x in r <==> x in multiset(r);
    }
    DistinctCount(s);
    forall i, j | 0 <= i < j < |r| ensures StrLess(r[i], r[j]) {
      MultiplicityAtLeastTwo(r, i, j);
      StrLessTotal(r[i], r[j]);
    }
  }

  /** In a sequence of pairwise distinct elements every element occurs
      once. */
  lemma {:induction false} DistinctCount(s: seq<string>)
    requires forall i, j :: 0 <= i < j < |s| ==> s[i] != s[j]
    ensures forall x :: multiset(s)[x] <= 1
  {
    if s != [] {
      DistinctCount(s[1..]);
      assert s == [s[0]] + s[1..];
      assert s[0] !in s[1..];
    }
  }

  lemma {:induction false} MultiplicityAtLeastTwo<T>(r: seq<T>, i: int, j: int)
    requires 0 <= i < j < |r|
    ensures r[i] == r[j] ==> multiset(r)[r[i]] >= 2
  {
    assert r == r[..i] + [r[i]] + r[i + 1..j] + [r[j]] + r[j + 1..];
  }
}
