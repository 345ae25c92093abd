/** Generic sequence helpers: mapping, filtering, counting, distinctness and sorting. */
module Seqs {
  import opened Wrappers

  /** No value occurs twice. */
  predicate NoDuplicates<T(==)>(s: seq<T>) {
    forall i, j :: 0 <= i < j < |s| ==> s[i] != s[j]
  }

  /** `f` applied to every element, in order (TypeScript `map`, a Python list comprehension). */
  function Map<T, U>(f: T -> U, s: seq<T>): (r: seq<U>)
    ensures |r| == |s|
    ensures forall i :: 0 <= i < |s| ==> r[i] == f(s[i])
  {
    if |s| == 0 then [] else [f(s[0])] + Map(f, s[1..])
  }

  /** The elements satisfying `f`, in order (TypeScript `filter`). */
  function Filter<T(!new)>(f: T -> bool, s: seq<T>): (r: seq<T>)
    ensures |r| <= |s|
    ensures forall x :: x in r <==> x in s && f(x)
  {
    if |s| == 0 then []
    else if f(s[0]) then [s[0]] + Filter(f, s[1..])
    else Filter(f, s[1..])
  }

  /** How many elements satisfy `f`. */
  function Count<T>(f: T -> bool, s: seq<T>): (n: nat)
    ensures n <= |s|
    ensures n == 0 <==> forall i :: 0 <= i < |s| ==> !f(s[i])
    ensures n == |s| <==> forall i :: 0 <= i < |s| ==> f(s[i])
  {
    if |s| == 0 then 0 else (if f(s[0]) then 1 else 0) + Count(f, s[1..])
  }

  lemma MapAppend<T, U>(f: T -> U, a: seq<T>, b: seq<T>)
    ensures Map(f, a + b) == Map(f, a) + Map(f, b)
  {
    assert forall i :: 0 <= i < |a + b| ==> Map(f, a + b)[i] == (Map(f, a) + Map(f, b))[i];
  }

  /** Two duplicate-free sequences with no value in common join into a duplicate-free one. */
  lemma AppendDistinct<T>(a: seq<T>, b: seq<T>)
    requires NoDuplicates(a) && NoDuplicates(b)
    requires forall i :: 0 <= i < |b| ==> b[i] !in a
    ensures NoDuplicates(a + b)
  {
    var c := a + b;
    forall i, j | 0 <= i < j < |c| ensures c[i] != c[j] {
      if j < |a| {
        assert c[i] == a[i] && c[j] == a[j];
      } else if i < |a| {
        assert c[i] == a[i] && c[j] == b[j - |a|];
      } else {
        assert c[i] == b[i - |a|] && c[j] == b[j - |a|];
      }
    }
  }

  lemma {:induction false} FilterLength<T(!new)>(f: T -> bool, s: seq<T>)
    ensures |Filter(f, s)| == Count(f, s)
  {
    if |s| > 0 {
      FilterLength(f, s[1..]);
    }
  }

  lemma {:induction false} CountAppend<T>(f: T -> bool, a: seq<T>, b: seq<T>)
    ensures Count(f, a + b) == Count(f, a) + Count(f, b)
  {
    if |a| == 0 {
      assert a + b == b;
    } else {
      assert (a + b)[1..] == a[1..] + b;
      CountAppend(f, a[1..], b);
    }
  }

  /** Two different positions that both satisfy `f` both add to the count. */
  lemma {:induction false} CountTwoPositions<T>(f: T -> bool, s: seq<T>, i: nat, k: nat)
    requires i < |s| && k < |s| && i != k
    ensures Count(f, s) >= (if f(s[i]) then 1 else 0) + (if f(s[k]) then 1 else 0)
  {
    if i == 0 {
      assert s[1..][k - 1] == s[k];
    } else if k == 0 {
      assert s[1..][i - 1] == s[i];
    } else {
      CountTwoPositions(f, s[1..], i - 1, k - 1);
    }
  }

  /** When one element is the only match, no other position matches. */
  lemma OnlyOneMatch<T>(f: T -> bool, s: seq<T>, k: nat)
    requires k < |s| && f(s[k]) && Count(f, s) == 1
    ensures forall i :: 0 <= i < |s| && i != k ==> !f(s[i])
  {
    forall i | 0 <= i < |s| && i != k ensures !f(s[i]) {
      CountTwoPositions(f, s, i, k);
    }
  }

  /** Filtering keeps the elements it keeps in their order, so distinct keys stay distinct. */
  lemma {:induction false} FilterKeepsDistinctKeys<T(!new), K>(key: T -> K, f: T -> bool, s: seq<T>)
    requires NoDuplicates(Map(key, s))
    ensures NoDuplicates(Map(key, Filter(f, s)))
  {
    if |s| > 0 {
      assert Map(key, s[1..]) == Map(key, s)[1..];
      FilterKeepsDistinctKeys(key, f, s[1..]);
      var rest := Filter(f, s[1..]);
      if f(s[0]) {
        var r := [s[0]] + rest;
        forall i, j | 0 <= i < j < |r|
          ensures Map(key, r)[i] != Map(key, r)[j]
        {
          if i == 0 {
            assert r[j] in s[1..];
            var k :| 1 <= k < |s| && s[k] == r[j];
            assert Map(key, s)[0] != Map(key, s)[k];
          } else {
            assert Map(key, r)[i] == Map(key, rest)[i - 1];
            assert Map(key, r)[j] == Map(key, rest)[j - 1];
          }
        }
      }
    }
  }

  /** `s` back to front. */
  function Reverse<T>(s: seq<T>): (r: seq<T>)
    ensures |r| == |s|
    ensures forall i :: 0 <= i < |s| ==> r[i] == s[|s| - 1 - i]
  {
    if |s| == 0 then [] else Reverse(s[1..]) + [s[0]]
  }

  /** Reversing a sequence with one more element at the end puts it first. */
  lemma ReverseSnoc<T>(s: seq<T>, x: T)
    ensures Reverse(s + [x]) == [x] + Reverse(s)
  {
    var r := Reverse(s + [x]);
    forall i | 0 <= i < |r| ensures r[i] == ([x] + Reverse(s))[i] {
      if i > 0 {
        assert (s + [x])[|s| - i] == s[|s| - 1 - (i - 1)];
      }
    }
  }

  /** Reversing keeps the members and the count of any property. */
  lemma {:induction false} ReverseKeepsCount<T>(f: T -> bool, s: seq<T>)
    ensures Count(f, Reverse(s)) == Count(f, s)
    ensures forall x :: x in Reverse(s) <==> x in s
  {
    if |s| > 0 {
      ReverseKeepsCount(f, s[1..]);
      CountAppend(f, Reverse(s[1..]), [s[0]]);
      assert s == [s[0]] + s[1..];
    }
  }

  /** Index of the first element satisfying `f` (SQLAlchemy `.filter(f).first()`). */
  function FindIndex<T>(f: T -> bool, s: seq<T>): (r: Option<nat>)
    ensures r.Some? ==> r.value < |s| && f(s[r.value]) && forall k :: 0 <= k < r.value ==> !f(s[k])
    ensures r.None? <==> forall k :: 0 <= k < |s| ==> !f(s[k])
  {
    if |s| == 0 then None
    else if f(s[0]) then Some(0)
    else
      match FindIndex(f, s[1..])
      case None => None
      case Some(i) => Some(i + 1)
  }

  /** Two sequences that agree on `f` everywhere have the same first match. */
  lemma {:induction false} SameMatchesSameIndex<T>(f: T -> bool, a: seq<T>, b: seq<T>)
    requires |a| == |b| && forall i :: 0 <= i < |a| ==> f(a[i]) == f(b[i])
    ensures FindIndex(f, a) == FindIndex(f, b)
  {
    if |a| > 0 {
      SameMatchesSameIndex(f, a[1..], b[1..]);
    }
  }

  /** The first element satisfying `f`. */
  function Find<T>(f: T -> bool, s: seq<T>): (r: Option<T>)
    ensures r.Some? ==> r.value in s && f(r.value)
    ensures r.None? <==> forall k :: 0 <= k < |s| ==> !f(s[k])
  {
    match FindIndex(f, s)
    case None => None
    case Some(i) => Some(s[i])
  }

  /** When exactly one element satisfies `f`, `Find` returns it. */
  lemma OnlyMatchFound<T>(f: T -> bool, s: seq<T>, k: nat)
    requires k < |s| && f(s[k])
    requires forall j :: 0 <= j < |s| && j != k ==> !f(s[j])
    ensures Find(f, s) == Some(s[k])
  {
    assert FindIndex(f, s).Some?;
  }

  /** `0, 1, …, n - 1` (Python `range(n)`). */
  function Range(n: nat): (r: seq<nat>)
    ensures |r| == n
    ensures forall i :: 0 <= i < n ==> r[i] == i
  {
    if n == 0 then [] else Range(n - 1) + [n - 1]
  }

  /** Strictly increasing, hence also free of duplicates. */
  predicate StrictlyIncreasing(s: seq<int>) {
    forall i, j :: 0 <= i < j < |s| ==> s[i] < s[j]
  }

  /** `x` put into its place in the strictly increasing `s`. */
  function InsertInt(x: int, s: seq<int>): (r: seq<int>)
    requires StrictlyIncreasing(s) && x !in s
    ensures StrictlyIncreasing(r)
    ensures |r| == |s| + 1
    ensures forall y :: y in r <==> y == x || y in s
  {
    if |s| == 0 || x < s[0] then [x] + s
    else
      var rest := InsertInt(x, s[1..]);
      assert forall i :: 0 <= i < |rest| ==> s[0] < rest[i] by {
        forall i | 0 <= i < |rest| ensures s[0] < rest[i] {
          assert rest[i] in rest;
          if rest[i] != x {
            var k :| 1 <= k < |s| && s[k] == rest[i];
          }
        }
      }
      [s[0]] + rest
  }

  /** Python `sorted` on a list of distinct integers. */
  function SortDistinct(s: seq<int>): (r: seq<int>)
    requires NoDuplicates(s)
    ensures StrictlyIncreasing(r)
    ensures |r| == |s|
    ensures forall y :: y in r <==> y in s
  {
    if |s| == 0 then [] else InsertInt(s[0], SortDistinct(s[1..]))
  }

  /** Sorted by `key`, largest first. */
  predicate DescendingBy<T>(key: T -> int, s: seq<T>) {
    forall i, j :: 0 <= i < j < |s| ==> key(s[i]) >= key(s[j])
  }

  function InsertDescending<T>(key: T -> int, x: T, s: seq<T>): (r: seq<T>)
    requires DescendingBy(key, s)
    ensures DescendingBy(key, r)
    ensures multiset(r) == multiset(s) + multiset{x}
  {
    if |s| == 0 || key(x) >= key(s[0]) then [x] + s
    else
      assert s == [s[0]] + s[1..];
      var rest := InsertDescending(key, x, s[1..]);
      HeadBoundsInsert(key, x, s, rest);
      ConsDescending(key, s[0], rest);
      [s[0]] + rest
  }

  /** What is inserted behind a larger head stays behind it. */
  lemma HeadBoundsInsert<T>(key: T -> int, x: T, s: seq<T>, rest: seq<T>)
    requires DescendingBy(key, s) && |s| > 0 && key(x) < key(s[0])
    requires multiset(rest) == multiset(s[1..]) + multiset{x}
    ensures forall i :: 0 <= i < |rest| ==> key(s[0]) >= key(rest[i])
  {
    forall i | 0 <= i < |rest| ensures key(s[0]) >= key(rest[i]) {
      assert rest[i] in multiset(rest);
      if rest[i] != x {
        assert rest[i] in multiset(s[1..]);
        var k :| 0 <= k < |s[1..]| && s[1..][k] == rest[i];
        assert s[k + 1] == rest[i];
      }
    }
  }

  lemma ConsDescending<T>(key: T -> int, head: T, rest: seq<T>)
    requires DescendingBy(key, rest)
    requires forall i :: 0 <= i < |rest| ==> key(head) >= key(rest[i])
    ensures DescendingBy(key, [head] + rest)
  {
    var r := [head] + rest;
    forall i, j | 0 <= i < j < |r| ensures key(r[i]) >= key(r[j]) {
      if i > 0 {
        assert r[i] == rest[i - 1] && r[j] == rest[j - 1];
      } else {
        assert r[j] == rest[j - 1];
      }
    }
  }

  /** A sort by `key`, largest first (SQL `ORDER BY key DESC`; the order of ties is left open). */
  function SortDescendingBy<T>(key: T -> int, s: seq<T>): (r: seq<T>)
    ensures DescendingBy(key, r)
    ensures multiset(r) == multiset(s)
  {
    if |s| == 0 then []
    else
      assert s == [s[0]] + s[1..];
      InsertDescending(key, s[0], SortDescendingBy(key, s[1..]))
  }

  /** Sorting neither adds nor drops an element. */
  lemma SortDescendingByMembers<T>(key: T -> int, s: seq<T>)
    ensures forall x :: x in SortDescendingBy(key, s) <==> x in s
  {
    var r := SortDescendingBy(key, s);
    forall x ensures x in r <==> x in s {
      assert x in r <==> x in multiset(r);
      assert x in s <==> x in multiset(s);
    }
  }

  /** A prefix of a descending sequence is descending and holds its largest keys. */
  lemma DescendingPrefix<T>(key: T -> int, s: seq<T>, n: nat)
    requires DescendingBy(key, s) && 0 < n <= |s|
    ensures DescendingBy(key, s[..n])
    ensures forall j :: n <= j < |s| ==> key(s[j]) <= key(s[n - 1])
  {
  }

  /** Filtering a concatenation filters each half. */
  lemma {:induction false} FilterAppend<T(!new)>(f: T -> bool, a: seq<T>, b: seq<T>)
    ensures Filter(f, a + b) == Filter(f, a) + Filter(f, b)
  {
    if |a| == 0 {
      assert a + b == b;
    } else {
      assert (a + b)[1..] == a[1..] + b;
      FilterAppend(f, a[1..], b);
    }
  }

  /** Filtering takes each element at most as often as it occurs. */
  lemma {:induction false} FilterSubMultiset<T(!new)>(f: T -> bool, s: seq<T>)
    ensures multiset(Filter(f, s)) <= multiset(s)
  {
    if |s| > 0 {
      FilterSubMultiset(f, s[1..]);
      assert s == [s[0]] + s[1..];
    }
  }

  /** `s` filtered twice by the same test is `s` filtered once. */
  lemma {:induction false} FilterTwice<T(!new)>(f: T -> bool, s: seq<T>)
    ensures Filter(f, Filter(f, s)) == Filter(f, s)
  {
    if |s| > 0 {
      FilterTwice(f, s[1..]);
      if f(s[0]) {
        assert ([s[0]] + Filter(f, s[1..]))[1..] == Filter(f, s[1..]);
      }
    }
  }
}
