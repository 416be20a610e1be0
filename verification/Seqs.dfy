/** Generic sequence helpers: order-preserving filtering and the
    first-appearance de-duplication performed by a JavaScript `Set`
    (or `Map` key set), which iterates in insertion order. */
module Seqs {
  import opened Wrappers

  function Last<T>(s: seq<T>): T
    requires |s| > 0
  {
    s[|s| - 1]
  }

  /** The elements of `s` for which `keep` holds, in their original order. */
  function Filter<T>(s: seq<T>, keep: T -> bool): (r: seq<T>)
    ensures |r| <= |s|
    ensures forall i :: 0 <= i < |r| ==> r[i] in s && keep(r[i])
    ensures forall i :: 0 <= i < |s| && keep(s[i]) ==> s[i] in r
  {
    if |s| == 0 then []
    else (if keep(s[0]) then [s[0]] else []) + Filter(s[1..], keep)
  }

  lemma {:induction false} FilterAppend<T>(a: seq<T>, b: seq<T>, keep: T -> bool)
    ensures Filter(a + b, keep) == Filter(a, keep) + Filter(b, keep)
  {
    if |a| == 0 {
      assert a + b == b;
    } else {
      assert (a + b)[1..] == a[1..] + b;
      FilterAppend(a[1..], b, keep);
    }
  }

  lemma {:induction false} FilterAllKept<T>(s: seq<T>, keep: T -> bool)
    requires forall i :: 0 <= i < |s| ==> keep(s[i])
    ensures Filter(s, keep) == s
  {
    if |s| > 0 {
      FilterAllKept(s[1..], keep);
    }
  }

  lemma {:induction false} FilterNoneKept<T>(s: seq<T>, keep: T -> bool)
    requires forall i :: 0 <= i < |s| ==> !keep(s[i])
    ensures Filter(s, keep) == []
  {
    if |s| > 0 {
      FilterNoneKept(s[1..], keep);
    }
  }

  lemma {:induction false} FilterCongruent<T>(s: seq<T>, p: T -> bool, q: T -> bool)
    requires forall i :: 0 <= i < |s| ==> (p(s[i]) <==> q(s[i]))
    ensures Filter(s, p) == Filter(s, q)
  {
    if |s| > 0 {
      FilterCongruent(s[1..], p, q);
    }
  }

  /** Filtering by `p` and then by `q` is filtering once by `both`. */
  lemma {:induction false} FilterFilter<T>(s: seq<T>, p: T -> bool, q: T -> bool, both: T -> bool)
    requires forall i :: 0 <= i < |s| ==> (both(s[i]) <==> p(s[i]) && q(s[i]))
    ensures Filter(Filter(s, p), q) == Filter(s, both)
  {
    if |s| > 0 {
      FilterFilter(s[1..], p, q, both);
      var h := if p(s[0]) then [s[0]] else [];
      FilterAppend(h, Filter(s[1..], p), q);
    }
  }

  /** Two kept positions make a filter at least two long. */
  lemma {:induction false} FilterKeepsTwo<T>(s: seq<T>, keep: T -> bool, i: nat, j: nat)
    requires i < j < |s| && keep(s[i]) && keep(s[j])
    ensures |Filter(s, keep)| >= 2
  {
    if i == 0 {
      assert s[1..][j - 1] == s[j];
      assert s[j] in Filter(s[1..], keep);
    } else {
      FilterKeepsTwo(s[1..], keep, i - 1, j - 1);
    }
  }

  /** If no two positions are both kept, at most one element is. */
  lemma {:induction false} FilterKeepsAtMostOne<T>(s: seq<T>, keep: T -> bool)
    requires forall i, j :: 0 <= i < j < |s| && keep(s[i]) ==> !keep(s[j])
    ensures |Filter(s, keep)| <= 1
  {
    if |s| > 0 {
      if keep(s[0]) {
        forall k | 0 <= k < |s[1..]|
          ensures !keep(s[1..][k])
        {
          assert s[1..][k] == s[k + 1];
        }
        FilterNoneKept(s[1..], keep);
      } else {
        FilterKeepsAtMostOne(s[1..], keep);
      }
    }
  }

  function EqualTo<T(==)>(x: T): T -> bool {
    y => y == x
  }

  ghost predicate NoDuplicates<T>(s: seq<T>) {
    forall i, j :: 0 <= i < j < |s| ==> s[i] != s[j]
  }

  /** Index of the first occurrence of `x` in `s`. */
  function FirstIndex<T(==)>(s: seq<T>, x: T): (k: nat)
    requires x in s
    ensures k < |s| && s[k] == x
    ensures x !in s[..k]
  {
    if s[0] == x then 0 else 1 + FirstIndex(s[1..], x)
  }

  /** The distinct elements of `s` in order of first appearance. */
  function Distinct<T(==)>(s: seq<T>): (r: seq<T>)
    ensures forall i :: 0 <= i < |r| ==> r[i] in s
    ensures forall i :: 0 <= i < |s| ==> s[i] in r
    ensures NoDuplicates(r)
    ensures |r| <= |s|
  {
    if |s| == 0 then []
    else
      var d := Distinct(s[..|s| - 1]);
      if Last(s) in d then d else d + [Last(s)]
  }

  /** `Distinct` lists its elements in the order in which each first occurs. */
  lemma {:induction false} DistinctFirstAppearanceOrder<T>(s: seq<T>, i: nat, j: nat)
    requires i < j < |Distinct(s)|
    ensures FirstIndex(s, Distinct(s)[i]) < FirstIndex(s, Distinct(s)[j])
  {
    var p := s[..|s| - 1];
    var d := Distinct(p);
    if Last(s) in d {
      DistinctFirstAppearanceOrder(p, i, j);
      FirstIndexPrefix(s, p, d[i]);
      FirstIndexPrefix(s, p, d[j]);
    } else {
      if j < |d| {
        DistinctFirstAppearanceOrder(p, i, j);
        FirstIndexPrefix(s, p, d[i]);
        FirstIndexPrefix(s, p, d[j]);
      } else {
        assert Distinct(s)[j] == Last(s) && Last(s) !in p;
        FirstIndexPrefix(s, p, d[i]);
        assert FirstIndex(s, Last(s)) == |s| - 1 by {
          assert s[..|s| - 1] == p;
        }
      }
    }
  }

  lemma FirstIndexPrefix<T>(s: seq<T>, p: seq<T>, x: T)
    requires |p| <= |s| && p == s[..|p|] && x in p
    ensures FirstIndex(s, x) == FirstIndex(p, x)
  {
    if s[0] != x {
      FirstIndexPrefix(s[1..], p[1..], x);
    }
  }

  /** When only the first `k` positions can be kept, at most `k` elements are. */
  lemma FilterWithinPrefix<T>(s: seq<T>, keep: T -> bool, k: nat)
    requires k <= |s|
    requires forall i :: k <= i < |s| ==> !keep(s[i])
    ensures |Filter(s, keep)| <= k
  {
    assert s == s[..k] + s[k..];
    FilterAppend(s[..k], s[k..], keep);
    FilterNoneKept(s[k..], keep);
  }

  /** When the first `k` positions cannot be kept, at most `|s| - k` elements are. */
  lemma FilterWithinSuffix<T>(s: seq<T>, keep: T -> bool, k: nat)
    requires k <= |s|
    requires forall i :: 0 <= i < k ==> !keep(s[i])
    ensures |Filter(s, keep)| <= |s| - k
  {
    assert s == s[..k] + s[k..];
    FilterAppend(s[..k], s[k..], keep);
    FilterNoneKept(s[..k], keep);
  }

  /** The present results of `f` over `s`, in order: the pattern of a
      `forEach` that pushes a value for some elements and skips the rest. */
  function FilterMap<A, B>(s: seq<A>, f: A -> Option<B>): (r: seq<B>)
    ensures |r| <= |s|
  {
    if |s| == 0 then []
    else (if f(s[0]).Some? then [f(s[0]).value] else []) + FilterMap(s[1..], f)
  }

  /** Every result comes from some element. */
  lemma {:induction false} FilterMapFrom<A, B>(s: seq<A>, f: A -> Option<B>, i: nat)
    requires i < |FilterMap(s, f)|
    ensures exists j :: 0 <= j < |s| && f(s[j]) == Some(FilterMap(s, f)[i])
  {
    var rest := FilterMap(s[1..], f);
    if f(s[0]).Some? {
      if i > 0 {
        assert FilterMap(s, f)[i] == rest[i - 1];
        FilterMapFrom(s[1..], f, i - 1);
        var j :| 0 <= j < |s[1..]| && f(s[1..][j]) == Some(rest[i - 1]);
        assert s[j + 1] == s[1..][j];
      } else {
        assert f(s[0]) == Some(FilterMap(s, f)[0]);
      }
    } else {
      assert FilterMap(s, f) == rest;
      FilterMapFrom(s[1..], f, i);
      var j :| 0 <= j < |s[1..]| && f(s[1..][j]) == Some(rest[i]);
      assert s[j + 1] == s[1..][j];
    }
  }

  /** Every present result is kept. */
  lemma {:induction false} FilterMapTo<A, B>(s: seq<A>, f: A -> Option<B>, j: nat)
    requires j < |s| && f(s[j]).Some?
    ensures f(s[j]).value in FilterMap(s, f)
  {
    if j > 0 {
      FilterMapTo(s[1..], f, j - 1);
      assert s[1..][j - 1] == s[j];
    }
  }

  /** No two elements of `s` share a key. */
  predicate KeysDistinct<T, K(==)>(s: seq<T>, key: T -> K) {
    forall i, j :: 0 <= i < j < |s| ==> key(s[i]) != key(s[j])
  }

  /** When each result carries its element's key, distinct keys in `s` give
      distinct keys in the results. */
  lemma {:induction false} FilterMapKeysDistinct<A, B, K>(s: seq<A>, f: A -> Option<B>, keyOf: A -> K, resultKey: B -> K)
    requires forall j :: 0 <= j < |s| && f(s[j]).Some? ==> resultKey(f(s[j]).value) == keyOf(s[j])
    requires KeysDistinct(s, keyOf)
    ensures KeysDistinct(FilterMap(s, f), resultKey)
  {
    if |s| > 0 {
      var rest := FilterMap(s[1..], f);
      assert forall j :: 0 <= j < |s[1..]| ==> s[1..][j] == s[j + 1];
      FilterMapKeysDistinct(s[1..], f, keyOf, resultKey);
      if f(s[0]).Some? {
        forall j | 0 <= j < |rest|
          ensures resultKey(rest[j]) != keyOf(s[0])
        {
          FilterMapFrom(s[1..], f, j);
          var m :| 0 <= m < |s[1..]| && f(s[1..][m]) == Some(rest[j]);
          assert s[1..][m] == s[m + 1];
          assert resultKey(rest[j]) == keyOf(s[m + 1]);
          assert keyOf(s[0]) != keyOf(s[m + 1]);
        }
        var r := FilterMap(s, f);
        assert r == [f(s[0]).value] + rest;
        forall i, j | 0 <= i < j < |r|
          ensures resultKey(r[i]) != resultKey(r[j])
        {
          assert r[j] == rest[j - 1];
          if i > 0 {
            assert r[i] == rest[i - 1];
          } else {
            assert resultKey(r[0]) == keyOf(s[0]);
          }
        }
      } else {
        assert FilterMap(s, f) == rest;
      }
    }
  }
}
