/** The two java.util operations the core relies on, stated on sequences:
    `Stream.distinct()` (first occurrence kept) and `Collections.sort` on paths
    (lexicographic order of their characters, as `Path.compareTo` does). */
module Collections {

  predicate NoDuplicates<T(==)>(s: seq<T>) {
    forall i, j :: 0 <= i < j < |s| ==> s[i] != s[j]
  }

  /** Index of the first occurrence of `x` in `s`. */
  function FirstIndex<T(==)>(s: seq<T>, x: T): (k: nat)
    requires x in s
    ensures k < |s| && s[k] == x && x !in s[..k]
  {
    if s[0] == x then 0 else 1 + FirstIndex(s[1..], x)
  }

  lemma {:induction false} FirstIndexInPrefix<T>(s: seq<T>, n: nat, x: T)
    requires n <= |s| && x in s[..n]
    ensures FirstIndex(s, x) == FirstIndex(s[..n], x)
  {
    if s[0] != x {
      assert s[1..][..n - 1] == s[..n][1..];
      FirstIndexInPrefix(s[1..], n - 1, x);
    }
  }

  /** `Stream.distinct()` on an ordered stream: scanning from the left, an
      element is kept when it has not been kept before. */
  function Distinct<T(==)>(s: seq<T>): (r: seq<T>)
    ensures forall i :: 0 <= i < |r| ==> r[i] in s
    ensures forall i :: 0 <= i < |s| ==> s[i] in r
    ensures NoDuplicates(r)
    ensures |r| <= |s|
  {
    if s == [] then []
    else
      var kept := Distinct(s[..|s| - 1]);
      if s[|s| - 1] in kept then kept else kept + [s[|s| - 1]]
  }

  /** The elements of `Distinct(s)` come in the order of their first occurrence in `s`. */
  lemma {:induction false} DistinctKeepsFirstSeenOrder<T>(s: seq<T>, i: nat, j: nat)
    requires i < j < |Distinct(s)|
    ensures FirstIndex(s, Distinct(s)[i]) < FirstIndex(s, Distinct(s)[j])
  {
    var n := |s| - 1;
    var p := s[..n];
    var kept := Distinct(p);
    var r := Distinct(s);
    assert r[i] in s && r[j] in s;
    if j < |kept| {
      assert r[i] == kept[i] && r[j] == kept[j];
      DistinctKeepsFirstSeenOrder(p, i, j);
      FirstIndexInPrefix(s, n, r[i]);
      FirstIndexInPrefix(s, n, r[j]);
    } else {
      // r[j] is the last element of s, kept because it occurs nowhere before
      assert r == kept + [s[n]] && r[j] == s[n] && s[n] !in p;
      assert r[i] == kept[i] && r[i] in p;
      FirstIndexInPrefix(s, n, r[i]);
    }
  }

  /** A sequence without duplicates is its own `distinct()`. */
  lemma {:induction false} DistinctOfDistinctFree<T>(s: seq<T>)
    requires NoDuplicates(s)
    ensures Distinct(s) == s
  {
    if s != [] {
      var n := |s| - 1;
      DistinctOfDistinctFree(s[..n]);
      assert s[n] !in s[..n];
      assert s[..n] + [s[n]] == s;
    }
  }

  /** `Path.compareTo`: lexicographic order of the characters, a prefix first. */
  predicate PathLe(a: string, b: string) {
    a == [] || (b != [] && (a[0] < b[0] || (a[0] == b[0] && PathLe(a[1..], b[1..]))))
  }

  lemma {:induction false} PathLeTotal(a: string, b: string)
    ensures PathLe(a, b) || PathLe(b, a)
  {
    if a != [] && b != [] && a[0] == b[0] {
      PathLeTotal(a[1..], b[1..]);
    }
  }

  lemma {:induction false} PathLeReflexive(a: string)
    ensures PathLe(a, a)
  {
    if a != [] {
      PathLeReflexive(a[1..]);
    }
  }

  lemma {:induction false} PathLeTransitive(a: string, b: string, c: string)
    requires PathLe(a, b) && PathLe(b, c)
    ensures PathLe(a, c)
  {
    if a != [] && b != [] && c != [] && a[0] == b[0] && b[0] == c[0] {
      PathLeTransitive(a[1..], b[1..], c[1..]);
    }
  }

  predicate SortedPaths(s: seq<string>) {
    forall i, j :: 0 <= i < j < |s| ==> PathLe(s[i], s[j])
  }

  function InsertPath(x: string, s: seq<string>): (r: seq<string>)
    requires SortedPaths(s)
    ensures SortedPaths(r)
    ensures multiset(r) == multiset(s) + multiset{x}
  {
    if s == [] then [x]
    else if PathLe(x, s[0]) then
      InsertFront(x, s);
      [x] + s
    else
      PathLeTotal(x, s[0]);
      var rest := InsertPath(x, s[1..]);
      InsertBehind(s[0], x, s[1..], rest);
      assert s == [s[0]] + s[1..];
      [s[0]] + rest
  }

  lemma InsertFront(x: string, s: seq<string>)
    requires SortedPaths(s) && s != [] && PathLe(x, s[0])
    ensures SortedPaths([x] + s)
  {
    forall j | 0 < j < |s| ensures PathLe(x, s[j]) {
      PathLeTransitive(x, s[0], s[j]);
    }
  }

  lemma InsertBehind(h: string, x: string, t: seq<string>, rest: seq<string>)
    requires SortedPaths([h] + t) && PathLe(h, x) && SortedPaths(rest)
    requires multiset(rest) == multiset(t) + multiset{x}
    ensures SortedPaths([h] + rest)
  {
    forall y | y in rest ensures PathLe(h, y) {
      assert y in multiset(rest);
      if y != x {
        assert y in t;
        var k :| 0 <= k < |t| && t[k] == y;
        assert ([h] + t)[0] == h && ([h] + t)[k + 1] == y;
        assert PathLe(([h] + t)[0], ([h] + t)[k + 1]);
      }
    }
    var r := [h] + rest;
    forall i, j | 0 <= i < j < |r| ensures PathLe(r[i], r[j]) {
      if i > 0 { assert r[i] == rest[i - 1] && r[j] == rest[j - 1]; }
      else { assert r[j] in rest; }
    }
  }

  /** `Collections.sort` on a list of paths. */
  function SortPaths(s: seq<string>): (r: seq<string>)
    ensures SortedPaths(r)
    ensures multiset(r) == multiset(s)
  {
    if s == [] then []
    else
      assert s == [s[0]] + s[1..];
      InsertPath(s[0], SortPaths(s[1..]))
  }
}
