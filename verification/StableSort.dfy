/** A stable sort over a strict weak order, the model of JavaScript's
    `Array.prototype.sort` (stable since ECMAScript 2019) with a numeric
    comparator: `before(a, b)` holds when the comparator puts `a` strictly
    ahead of `b`; elements it calls equal keep their input order. */
module StableSort {
  import opened Seqs

  /** `before` is asymmetric, transitive, and incomparability is transitive. */
  ghost predicate StrictWeakOrder<T(!new)>(before: (T, T) -> bool) {
    && (forall a, b :: before(a, b) ==> !before(b, a))
    && (forall a, b, c :: before(a, b) && before(b, c) ==> before(a, c))
    && (forall a, b, c :: before(a, c) ==> before(a, b) || before(b, c))
  }

  /** Neither element is ahead of the other: the comparator returns 0. */
  predicate Tied<T>(before: (T, T) -> bool, a: T, b: T) {
    !before(a, b) && !before(b, a)
  }

  /** No later element is strictly ahead of an earlier one. */
  ghost predicate Sorted<T>(s: seq<T>, before: (T, T) -> bool) {
    forall i, j :: 0 <= i < j < |s| ==> !before(s[j], s[i])
  }

  /** `x` goes in front of the first element that is not strictly ahead of it,
      so it precedes every element tied with it. */
  function Insert<T>(x: T, r: seq<T>, before: (T, T) -> bool): (o: seq<T>)
    ensures |o| == |r| + 1
    ensures multiset(o) == multiset(r) + multiset{x}
  {
    if |r| == 0 || !before(r[0], x) then [x] + r
    else
      assert r == [r[0]] + r[1..];
      [r[0]] + Insert(x, r[1..], before)
  }

  /** Insertion sort from the back: the head is inserted into the sorted tail,
      in front of the elements tied with it, which came later in `s`. */
  function Sort<T>(s: seq<T>, before: (T, T) -> bool): (r: seq<T>)
    ensures |r| == |s|
    ensures multiset(r) == multiset(s)
  {
    if |s| == 0 then []
    else
      assert s == [s[0]] + s[1..];
      Insert(s[0], Sort(s[1..], before), before)
  }

  lemma {:induction false} InsertSorted<T(!new)>(x: T, r: seq<T>, before: (T, T) -> bool)
    requires StrictWeakOrder(before)
    requires Sorted(r, before)
    ensures Sorted(Insert(x, r, before), before)
  {
    var o := Insert(x, r, before);
    if |r| == 0 || !before(r[0], x) {
      forall i, j | 0 <= i < j < |o|
        ensures !before(o[j], o[i])
      {
        if i == 0 && j > 1 {
          assert !before(r[j - 1], r[0]);
        }
      }
    } else {
      var tail := Insert(x, r[1..], before);
      InsertSorted(x, r[1..], before);
      forall j | 0 < j < |o|
        ensures !before(o[j], r[0])
      {
        assert o[j] == tail[j - 1];
        assert tail[j - 1] in multiset(tail);
        if tail[j - 1] != x {
          assert tail[j - 1] in multiset(r[1..]);
          var k :| 0 <= k < |r[1..]| && r[1..][k] == tail[j - 1];
          assert !before(r[k + 1], r[0]);
        }
      }
    }
  }

  /** The sort's output is ordered. */
  lemma {:induction false} SortIsSorted<T(!new)>(s: seq<T>, before: (T, T) -> bool)
    requires StrictWeakOrder(before)
    ensures Sorted(Sort(s, before), before)
  {
    if |s| > 0 {
      SortIsSorted(s[1..], before);
      InsertSorted(s[0], Sort(s[1..], before), before);
    }
  }

  lemma {:induction false} InsertKeepsTiedOrder<T(!new)>(x: T, r: seq<T>, before: (T, T) -> bool, w: T)
    requires StrictWeakOrder(before)
    ensures Filter(Insert(x, r, before), y => Tied(before, y, w))
         == (if Tied(before, x, w) then [x] else []) + Filter(r, y => Tied(before, y, w))
  {
    var tw := y => Tied(before, y, w);
    if |r| == 0 || !before(r[0], x) {
      assert ([x] + r)[1..] == r;
    } else {
      InsertKeepsTiedOrder(x, r[1..], before, w);
      assert ([r[0]] + Insert(x, r[1..], before))[1..] == Insert(x, r[1..], before);
    }
  }

  /** Stability: the elements tied with any `w` appear in the output in
      exactly their input order. */
  lemma {:induction false} SortIsStable<T(!new)>(s: seq<T>, before: (T, T) -> bool, w: T)
    requires StrictWeakOrder(before)
    ensures Filter(Sort(s, before), y => Tied(before, y, w)) == Filter(s, y => Tied(before, y, w))
  {
    if |s| > 0 {
      SortIsStable(s[1..], before, w);
      InsertKeepsTiedOrder(s[0], Sort(s[1..], before), before, w);
    }
  }

  lemma {:induction false} InsertCount<T>(x: T, r: seq<T>, before: (T, T) -> bool, keep: T -> bool)
    ensures |Filter(Insert(x, r, before), keep)| == |Filter(r, keep)| + (if keep(x) then 1 else 0)
  {
    if |r| > 0 && before(r[0], x) {
      InsertCount(x, r[1..], before, keep);
      assert ([r[0]] + Insert(x, r[1..], before))[1..] == Insert(x, r[1..], before);
    } else {
      assert ([x] + r)[1..] == r;
    }
  }

  /** Sorting does not change how many elements satisfy any predicate. */
  lemma {:induction false} SortKeepsCount<T>(s: seq<T>, before: (T, T) -> bool, keep: T -> bool)
    ensures |Filter(Sort(s, before), keep)| == |Filter(s, keep)|
  {
    if |s| > 0 {
      SortKeepsCount(s[1..], before, keep);
      InsertCount(s[0], Sort(s[1..], before), before, keep);
    }
  }

  /** `y` is a least element of `s`: nothing in `s` is strictly ahead of it. */
  ghost predicate LeastIn<T>(s: seq<T>, before: (T, T) -> bool, y: T) {
    forall j :: 0 <= j < |s| ==> !before(s[j], y)
  }

  /** `y` is a greatest element of `s`: it is strictly ahead of nothing in `s`. */
  ghost predicate GreatestIn<T>(s: seq<T>, before: (T, T) -> bool, y: T) {
    forall j :: 0 <= j < |s| ==> !before(y, s[j])
  }

  lemma LeastHead<T(!new)>(x: T, t: seq<T>, before: (T, T) -> bool, m: T)
    requires StrictWeakOrder(before)
    requires m in t && LeastIn(t, before, m) && !before(m, x)
    ensures LeastIn([x] + t, before, x)
  {
    forall j | 0 <= j < |[x] + t|
      ensures !before(([x] + t)[j], x)
    {
      if j > 0 {
        assert ([x] + t)[j] == t[j - 1];
        assert !before(t[j - 1], m);
      }
    }
  }

  lemma LeastBehindHead<T(!new)>(x: T, t: seq<T>, before: (T, T) -> bool, m: T)
    requires StrictWeakOrder(before)
    requires m in t && LeastIn(t, before, m) && before(m, x)
    ensures !LeastIn([x] + t, before, x)
    ensures forall i :: 0 <= i < |t| ==> (LeastIn([x] + t, before, t[i]) <==> LeastIn(t, before, t[i]))
  {
    assert ([x] + t)[1..] == t;
    var k :| 0 <= k < |t| && t[k] == m;
    assert ([x] + t)[k + 1] == m;
    forall i | 0 <= i < |t| && LeastIn(t, before, t[i])
      ensures LeastIn([x] + t, before, t[i])
    {
      assert !before(m, t[i]);
      forall j | 0 <= j < |[x] + t|
        ensures !before(([x] + t)[j], t[i])
      {
        if j > 0 {
          assert ([x] + t)[j] == t[j - 1];
        }
      }
    }
    forall i | 0 <= i < |t| && LeastIn([x] + t, before, t[i])
      ensures LeastIn(t, before, t[i])
    {
      forall j | 0 <= j < |t|
        ensures !before(t[j], t[i])
      {
        assert ([x] + t)[j + 1] == t[j];
      }
    }
  }

  lemma {:induction false} SortFirstIsFirstLeast<T(!new)>(s: seq<T>, before: (T, T) -> bool)
    requires StrictWeakOrder(before)
    requires |s| > 0
    ensures |Filter(s, y => LeastIn(s, before, y))| > 0
    ensures Sort(s, before)[0] == Filter(s, y => LeastIn(s, before, y))[0]
  {
    var ls := y => LeastIn(s, before, y);
    var t := s[1..];
    assert s == [s[0]] + t;
    if |t| == 0 {
      assert ls(s[0]);
    } else {
      var lt := y => LeastIn(t, before, y);
      var r := Sort(t, before);
      SortFirstIsFirstLeast(t, before);
      var m := r[0];
      assert lt(m);
      assert m in multiset(t);
      if !before(m, s[0]) {
        LeastHead(s[0], t, before, m);
        assert ls(s[0]);
      } else {
        LeastBehindHead(s[0], t, before, m);
        assert !ls(s[0]);
        FilterCongruent(t, ls, lt);
      }
    }
  }

  /** The first element of the sorted output is the earliest input element
      among those nothing is strictly ahead of; `least` names that set. */
  lemma SortFirst<T(!new)>(s: seq<T>, before: (T, T) -> bool, least: T -> bool)
    requires StrictWeakOrder(before)
    requires |s| > 0
    requires forall i :: 0 <= i < |s| ==> (least(s[i]) <==> LeastIn(s, before, s[i]))
    ensures |Filter(s, least)| > 0
    ensures Sort(s, before)[0] == Filter(s, least)[0]
  {
    SortFirstIsFirstLeast(s, before);
    FilterCongruent(s, least, y => LeastIn(s, before, y));
  }

  lemma {:induction false} InsertLast<T>(x: T, r: seq<T>, before: (T, T) -> bool)
    requires |r| > 0
    ensures Last(Insert(x, r, before)) == if forall k :: 0 <= k < |r| ==> before(r[k], x) then x else Last(r)
  {
    if !before(r[0], x) {
    } else if |r| == 1 {
    } else {
      InsertLast(x, r[1..], before);
      var allAhead := forall k :: 0 <= k < |r| ==> before(r[k], x);
      var tailAhead := forall k :: 0 <= k < |r[1..]| ==> before(r[1..][k], x);
      assert allAhead <==> tailAhead by {
        if tailAhead {
          forall k | 0 <= k < |r|
            ensures before(r[k], x)
          {
            if k > 0 {
              assert r[k] == r[1..][k - 1];
            }
          }
        }
      }
    }
  }

  lemma GreatestHead<T(!new)>(x: T, t: seq<T>, before: (T, T) -> bool)
    requires StrictWeakOrder(before)
    requires forall j :: 0 <= j < |t| ==> before(t[j], x)
    ensures GreatestIn([x] + t, before, x)
    ensures forall i :: 0 <= i < |t| ==> !GreatestIn([x] + t, before, t[i])
  {
    forall i | 0 <= i < |t|
      ensures !GreatestIn([x] + t, before, t[i])
    {
      assert ([x] + t)[0] == x;
      assert before(t[i], x);
    }
  }

  lemma GreatestGainsHead<T(!new)>(x: T, t: seq<T>, before: (T, T) -> bool, k: nat, i: nat)
    requires StrictWeakOrder(before)
    requires k < |t| && !before(t[k], x)
    requires i < |t| && GreatestIn(t, before, t[i])
    ensures GreatestIn([x] + t, before, t[i])
  {
    assert !before(t[i], t[k]);
    assert !before(t[i], x);
    forall j | 0 <= j < |[x] + t|
      ensures !before(t[i], ([x] + t)[j])
    {
      if j > 0 {
        assert ([x] + t)[j] == t[j - 1];
      }
    }
  }

  lemma GreatestLosesHead<T>(x: T, t: seq<T>, before: (T, T) -> bool, i: nat)
    requires i < |t| && GreatestIn([x] + t, before, t[i])
    ensures GreatestIn(t, before, t[i])
  {
    forall j | 0 <= j < |t|
      ensures !before(t[i], t[j])
    {
      assert ([x] + t)[j + 1] == t[j];
    }
  }

  lemma GreatestBehindHead<T(!new)>(x: T, t: seq<T>, before: (T, T) -> bool, m: T)
    requires StrictWeakOrder(before)
    requires m in t && !before(m, x)
    ensures forall i :: 0 <= i < |t| ==> (GreatestIn([x] + t, before, t[i]) <==> GreatestIn(t, before, t[i]))
  {
    var k :| 0 <= k < |t| && t[k] == m;
    forall i | 0 <= i < |t|
      ensures GreatestIn([x] + t, before, t[i]) <==> GreatestIn(t, before, t[i])
    {
      if GreatestIn(t, before, t[i]) {
        GreatestGainsHead(x, t, before, k, i);
      }
      if GreatestIn([x] + t, before, t[i]) {
        GreatestLosesHead(x, t, before, i);
      }
    }
  }

  ghost function GreatestOf<T>(s: seq<T>, before: (T, T) -> bool): T -> bool {
    y => GreatestIn(s, before, y)
  }

  /** The head goes last when every other element is ahead of it; then it is
      the only greatest element. */
  lemma SortLastHeadBehindAll<T(!new)>(s: seq<T>, before: (T, T) -> bool)
    requires StrictWeakOrder(before)
    requires |s| > 1
    requires forall k :: 0 <= k < |Sort(s[1..], before)| ==> before(Sort(s[1..], before)[k], s[0])
    ensures Filter(s, GreatestOf(s, before)) == [s[0]]
  {
    var t := s[1..];
    assert s == [s[0]] + t;
    AheadOfAll(t, Sort(t, before), before, s[0]);
    GreatestHead(s[0], t, before);
    FilterNoneKept(t, GreatestOf(s, before));
  }

  /** Otherwise the greatest elements behind the head are those of the tail. */
  lemma SortLastHeadNotLast<T(!new)>(s: seq<T>, before: (T, T) -> bool, m: T)
    requires StrictWeakOrder(before)
    requires |s| > 1
    requires m in s[1..] && !before(m, s[0])
    requires |Filter(s[1..], GreatestOf(s[1..], before))| > 0
    ensures |Filter(s, GreatestOf(s, before))| > 0
    ensures Last(Filter(s, GreatestOf(s, before))) == Last(Filter(s[1..], GreatestOf(s[1..], before)))
  {
    var t := s[1..];
    assert s == [s[0]] + t;
    GreatestBehindHead(s[0], t, before, m);
    FilterCongruent(t, GreatestOf(s, before), GreatestOf(t, before));
    var ft := Filter(t, GreatestOf(t, before));
    var head := if GreatestOf(s, before)(s[0]) then [s[0]] else [];
    assert Filter(s, GreatestOf(s, before)) == head + ft;
    assert Last(head + ft) == Last(ft);
  }

  lemma {:induction false} SortLastIsLastGreatest<T(!new)>(s: seq<T>, before: (T, T) -> bool)
    requires StrictWeakOrder(before)
    requires |s| > 0
    ensures |Filter(s, GreatestOf(s, before))| > 0
    ensures Last(Sort(s, before)) == Last(Filter(s, GreatestOf(s, before)))
  {
    var t := s[1..];
    if |t| == 0 {
      assert s == [s[0]];
      assert GreatestOf(s, before)(s[0]);
    } else {
      var r := Sort(t, before);
      SortLastIsLastGreatest(t, before);
      InsertLast(s[0], r, before);
      if forall k :: 0 <= k < |r| ==> before(r[k], s[0]) {
        SortLastHeadBehindAll(s, before);
      } else {
        var k :| 0 <= k < |r| && !before(r[k], s[0]);
        assert r[k] in multiset(t);
        SortLastHeadNotLast(s, before, r[k]);
      }
    }
  }

  /** Sorting keeps distinct elements distinct. */
  lemma SortedPairDistinct<T>(s: seq<T>, before: (T, T) -> bool, i: nat, j: nat)
    requires NoDuplicates(s)
    requires i < j < |Sort(s, before)|
    ensures Sort(s, before)[i] != Sort(s, before)[j]
  {
    var u := Sort(s, before);
    if u[i] == u[j] {
      FilterKeepsTwo(u, EqualTo(u[i]), i, j);
      SortKeepsCount(s, before, EqualTo(u[i]));
      FilterKeepsAtMostOne(s, EqualTo(u[i]));
      assert false;
    }
  }

  lemma SortKeepsNoDuplicates<T>(s: seq<T>, before: (T, T) -> bool)
    requires NoDuplicates(s)
    ensures NoDuplicates(Sort(s, before))
  {
    forall i, j | 0 <= i < j < |Sort(s, before)|
      ensures Sort(s, before)[i] != Sort(s, before)[j]
    {
      SortedPairDistinct(s, before, i, j);
    }
  }

  lemma AheadOfAll<T>(t: seq<T>, r: seq<T>, before: (T, T) -> bool, x: T)
    requires multiset(r) == multiset(t)
    requires forall k :: 0 <= k < |r| ==> before(r[k], x)
    ensures forall j :: 0 <= j < |t| ==> before(t[j], x)
  {
    forall j | 0 <= j < |t|
      ensures before(t[j], x)
    {
      assert t[j] in multiset(r);
    }
  }

  /** The last element of the sorted output is the latest input element
      among those strictly ahead of nothing; `greatest` names that set. */
  lemma SortLast<T(!new)>(s: seq<T>, before: (T, T) -> bool, greatest: T -> bool)
    requires StrictWeakOrder(before)
    requires |s| > 0
    requires forall i :: 0 <= i < |s| ==> (greatest(s[i]) <==> GreatestIn(s, before, s[i]))
    ensures |Filter(s, greatest)| > 0
    ensures Last(Sort(s, before)) == Last(Filter(s, greatest))
  {
    SortLastIsLastGreatest(s, before);
    FilterCongruent(s, greatest, GreatestOf(s, before));
  }

  /** Input that is already in order comes back unchanged. */
  lemma {:induction false} SortOfSorted<T>(s: seq<T>, before: (T, T) -> bool)
    requires Sorted(s, before)
    ensures Sort(s, before) == s
  {
    if |s| > 0 {
      assert Sorted(s[1..], before) by {
        forall i, j | 0 <= i < j < |s[1..]|
          ensures !before(s[1..][j], s[1..][i])
        {
          assert s[1..][j] == s[j + 1] && s[1..][i] == s[i + 1];
        }
      }
      SortOfSorted(s[1..], before);
      if |s| > 1 {
        assert !before(s[1], s[0]);
      }
      assert [s[0]] + s[1..] == s;
    }
  }
}
