/** The data preparation of the performance chart: finite points sorted by
    time, one series per model name, a bucketing tolerance derived from the
    median spacing of the distinct timestamps, and one chart row per bucket
    of points whose successive times lie within that tolerance. */
module Chart {
  import opened Wrappers
  import opened Seqs
  import opened StableSort
  import opened Snapshots

  // ---------------------------------------------------------------- points

  /** One plotted point `{ t, name, v }`. */
  datatype Point = Point(t: int, name: string, v: real)

  function ToPoint(s: Snapshot): Point
    requires s.value.Some?
  {
    Point(s.t, SeriesName(s), s.value.value)
  }

  /** The `map` to points followed by the `Number.isFinite` filter. */
  function CleanPoints(data: seq<Snapshot>): (ps: seq<Point>)
    ensures |ps| <= |data|
  {
    if |data| == 0 then []
    else (if data[0].value.Some? then [ToPoint(data[0])] else []) + CleanPoints(data[1..])
  }

  /** The points are exactly the snapshots with a finite value. */
  lemma {:induction false} CleanPointsMembers(data: seq<Snapshot>)
    ensures forall i :: 0 <= i < |data| && data[i].value.Some? ==> ToPoint(data[i]) in CleanPoints(data)
    ensures forall p :: p in CleanPoints(data) ==>
              exists i :: 0 <= i < |data| && data[i].value.Some? && ToPoint(data[i]) == p
  {
    if |data| > 0 {
      CleanPointsMembers(data[1..]);
      forall i | 1 <= i < |data|
        ensures data[i] == data[1..][i - 1]
      {
      }
      forall p | p in CleanPoints(data)
        ensures exists i :: 0 <= i < |data| && data[i].value.Some? && ToPoint(data[i]) == p
      {
        if p !in CleanPoints(data[1..]) {
          assert data[0].value.Some? && ToPoint(data[0]) == p;
        } else {
          var i :| 0 <= i < |data[1..]| && data[1..][i].value.Some? && ToPoint(data[1..][i]) == p;
          assert data[i + 1] == data[1..][i];
        }
      }
    }
  }

  /** The comparator `(a, b) => a.t - b.t`. */
  predicate ByTime(a: Point, b: Point) {
    a.t < b.t
  }

  lemma ByTimeIsStrictWeakOrder()
    ensures StrictWeakOrder(ByTime)
  {
  }

  /** `points`: the finite points, stably sorted by time. */
  function Points(data: seq<Snapshot>): (ps: seq<Point>)
    ensures multiset(ps) == multiset(CleanPoints(data))
  {
    Sort(CleanPoints(data), ByTime)
  }

  ghost predicate TimeOrdered(ps: seq<Point>) {
    forall i, j :: 0 <= i <= j < |ps| ==> ps[i].t <= ps[j].t
  }

  lemma PointsTimeOrdered(data: seq<Snapshot>)
    ensures TimeOrdered(Points(data))
    ensures multiset(Points(data)) == multiset(CleanPoints(data))
  {
    ByTimeIsStrictWeakOrder();
    SortIsSorted(CleanPoints(data), ByTime);
  }

  function Names(ps: seq<Point>): (ns: seq<string>)
    ensures |ns| == |ps|
    ensures forall i :: 0 <= i < |ps| ==> ns[i] == ps[i].name
  {
    seq(|ps|, i requires 0 <= i < |ps| => ps[i].name)
  }

  function Times(ps: seq<Point>): (ts: seq<int>)
    ensures |ts| == |ps|
    ensures forall i :: 0 <= i < |ps| ==> ts[i] == ps[i].t
  {
    seq(|ps|, i requires 0 <= i < |ps| => ps[i].t)
  }

  // ------------------------------------------------------------ tolerance

  /** The numeric comparator `(a, b) => a - b`. */
  predicate Less(a: int, b: int) {
    a < b
  }

  lemma LessIsStrictWeakOrder()
    ensures StrictWeakOrder(Less)
  {
  }

  ghost predicate StrictlyIncreasing(xs: seq<int>) {
    forall i, j :: 0 <= i < j < |xs| ==> xs[i] < xs[j]
  }

  /** `uniqueTs`: the distinct point times, sorted ascending. */
  function UniqueTimes(ps: seq<Point>): (u: seq<int>)
    ensures |u| <= |ps|
  {
    Sort(Distinct(Times(ps)), Less)
  }

  /** The distinct times are strictly increasing and are exactly the point times. */
  lemma UniqueTimesIncrease(ps: seq<Point>)
    ensures StrictlyIncreasing(UniqueTimes(ps))
    ensures forall t :: t in UniqueTimes(ps) <==> t in Times(ps)
  {
    var d := Distinct(Times(ps));
    var u := UniqueTimes(ps);
    SortedAscending(d);
    SortKeepsNoDuplicates(d, Less);
    forall i, j | 0 <= i < j < |u|
      ensures u[i] < u[j]
    {
      assert u[i] <= u[j] && u[i] != u[j];
    }
    assert forall t :: t in u <==> t in multiset(d);
  }

  /** `gaps`: the differences between successive times. */
  function Gaps(ts: seq<int>): (gs: seq<int>)
    ensures |gs| == if |ts| < 2 then 0 else |ts| - 1
    ensures forall i :: 0 <= i < |gs| ==> gs[i] == ts[i + 1] - ts[i]
  {
    if |ts| < 2 then [] else seq(|ts| - 1, i requires 0 <= i < |ts| - 1 => ts[i + 1] - ts[i])
  }

  function Sum(xs: seq<int>): int {
    if |xs| == 0 then 0 else Sum(xs[..|xs| - 1]) + Last(xs)
  }

  lemma GapsSnoc(ts: seq<int>)
    requires |ts| >= 2
    ensures Gaps(ts) == Gaps(ts[..|ts| - 1]) + [Last(ts) - ts[|ts| - 2]]
  {
    var p := ts[..|ts| - 1];
    var r := Gaps(p) + [Last(ts) - ts[|ts| - 2]];
    assert |Gaps(ts)| == |r|;
    forall i | 0 <= i < |r|
      ensures Gaps(ts)[i] == r[i]
    {
      if i < |r| - 1 {
        assert r[i] == Gaps(p)[i] == p[i + 1] - p[i];
      }
    }
  }

  /** The gaps add up to the whole span of the times. */
  lemma {:induction false} GapsSpan(ts: seq<int>)
    requires |ts| > 0
    ensures Sum(Gaps(ts)) == Last(ts) - ts[0]
  {
    if |ts| > 1 {
      var p := ts[..|ts| - 1];
      GapsSpan(p);
      GapsSnoc(ts);
      var g := Gaps(ts);
      assert g[..|g| - 1] == Gaps(p);
    }
  }

  /** The gaps of strictly increasing times are positive. */
  lemma GapsPositive(ts: seq<int>)
    requires StrictlyIncreasing(ts)
    ensures forall i :: 0 <= i < |Gaps(ts)| ==> Gaps(ts)[i] > 0
  {
  }

  /** `60_000`: the fallback spacing of one minute. */
  const DefaultGap: int := 60000

  /** `medianGap`: the upper median of the sorted gaps, or one minute when
      there are none. */
  function MedianGap(gaps: seq<int>): (m: int)
    ensures |gaps| == 0 ==> m == DefaultGap
    ensures |gaps| > 0 ==> m in gaps
  {
    if |gaps| == 0 then DefaultGap
    else
      var s := Sort(gaps, Less);
      assert s[|gaps| / 2] in multiset(gaps);
      s[|gaps| / 2]
  }

  function Below(m: int): int -> bool {
    x => x < m
  }

  function Above(m: int): int -> bool {
    x => x > m
  }

  ghost predicate Ascending(xs: seq<int>) {
    forall i, j :: 0 <= i <= j < |xs| ==> xs[i] <= xs[j]
  }

  lemma SortedAscending(xs: seq<int>)
    ensures Ascending(Sort(xs, Less))
  {
    LessIsStrictWeakOrder();
    SortIsSorted(xs, Less);
  }

  lemma FewBelow(xs: seq<int>, h: nat)
    requires h < |xs|
    ensures |Filter(xs, Below(Sort(xs, Less)[h]))| <= h
  {
    var s := Sort(xs, Less);
    SortedAscending(xs);
    forall i | h <= i < |s|
      ensures !Below(s[h])(s[i])
    {
    }
    FilterWithinPrefix(s, Below(s[h]), h);
    SortKeepsCount(xs, Less, Below(s[h]));
  }

  lemma FewAbove(xs: seq<int>, h: nat)
    requires h < |xs|
    ensures |Filter(xs, Above(Sort(xs, Less)[h]))| <= |xs| - h - 1
  {
    var s := Sort(xs, Less);
    SortedAscending(xs);
    forall i | 0 <= i < h + 1
      ensures !Above(s[h])(s[i])
    {
    }
    FilterWithinSuffix(s, Above(s[h]), h + 1);
    SortKeepsCount(xs, Less, Above(s[h]));
  }

  /** The median is one of the gaps; at most `n / 2` of the `n` gaps are
      smaller and at most `n - n / 2 - 1` are larger. */
  lemma MedianGapIsMedian(gaps: seq<int>)
    requires |gaps| > 0
    ensures MedianGap(gaps) in gaps
    ensures |Filter(gaps, Below(MedianGap(gaps)))| <= |gaps| / 2
    ensures |Filter(gaps, Above(MedianGap(gaps)))| <= |gaps| - |gaps| / 2 - 1
  {
    var s := Sort(gaps, Less);
    assert s[|gaps| / 2] in multiset(gaps);
    FewBelow(gaps, |gaps| / 2);
    FewAbove(gaps, |gaps| / 2);
  }

  /** The median of positive gaps is positive. */
  lemma MedianGapPositive(gaps: seq<int>)
    requires forall i :: 0 <= i < |gaps| ==> gaps[i] > 0
    ensures MedianGap(gaps) > 0
    ensures |gaps| == 0 ==> MedianGap(gaps) == DefaultGap
  {
    if |gaps| > 0 {
      MedianGapIsMedian(gaps);
    }
  }

  function Min(a: int, b: int): int {
    if a <= b then a else b
  }

  function Max(a: int, b: int): int {
    if a >= b then a else b
  }

  /** `tolerance`: one and a half times the median gap (`|| 60_000` turns a
      zero median into one minute), rounded down and clamped to between
      five seconds and five minutes. */
  function Tolerance(median: int): (tol: int)
    ensures 5000 <= tol <= 300000
  {
    var base := if median == 0 then DefaultGap else median;
    Min(5 * 60000, Max(5000, (base * 3) / 2))
  }

  /** Away from the clamps the tolerance is exactly `floor(1.5 * median)`. */
  lemma ToleranceUnclamped(median: int)
    requires 3334 <= median <= 200000
    ensures Tolerance(median) == (3 * median) / 2
    ensures 2 * Tolerance(median) <= 3 * median < 2 * Tolerance(median) + 2
  {
  }

  /** A wider median spacing never gives a smaller tolerance. */
  lemma ToleranceMonotone(a: int, b: int)
    requires 0 < a <= b
    ensures Tolerance(a) <= Tolerance(b)
  {
  }

  lemma ToleranceExamples()
    ensures Tolerance(60000) == 90000
    ensures Tolerance(0) == 90000
    ensures Tolerance(1000) == 5000
    ensures Tolerance(3600000) == 300000
  {
  }

  // ------------------------------------------------------------ bucketing

  /** One chart row: the bucket's centre time and, per series, the value
      last written in the bucket. */
  datatype ChartRow = ChartRow(t: int, cols: map<string, real>)

  /** The one key a plain object does not store as its own property. */
  const ProtoKey := "__proto__"

  /** `bucketRows[name] = v` on the plain object `bucketRows`: the key
      "__proto__" reaches the `Object.prototype` setter, which ignores a
      number, so no column is written; any other key is set or overwritten. */
  function Store(cols: map<string, real>, name: string, v: real): (r: map<string, real>)
    ensures name != ProtoKey ==> name in r && r[name] == v
    ensures forall n :: n != name ==> (n in r <==> n in cols) && (n in r ==> r[n] == cols[n])
    ensures ProtoKey in r <==> ProtoKey in cols
  {
    if name == ProtoKey then cols else cols[name := v]
  }

  /** `bucketRows[p.name] = p.v` over a run of points: later points overwrite
      earlier ones of the same series. */
  function Cols(ps: seq<Point>): map<string, real> {
    if |ps| == 0 then map[] else Store(Cols(ps[..|ps| - 1]), Last(ps).name, Last(ps).v)
  }

  /** The columns are exactly the series of the run, except "__proto__". */
  lemma {:induction false} ColsKeys(ps: seq<Point>)
    ensures forall n :: n in Cols(ps) <==> n in Names(ps) && n != ProtoKey
  {
    if |ps| > 0 {
      var p := ps[..|ps| - 1];
      ColsKeys(p);
      assert Names(ps) == Names(p) + [Last(ps).name];
    }
  }

  /** A series' column holds the value of its last point in the run; the
      series "__proto__" has no column. */
  lemma {:induction false} ColsLastWins(ps: seq<Point>, i: nat)
    requires i < |ps|
    requires forall j :: i < j < |ps| ==> ps[j].name != ps[i].name
    ensures ps[i].name != ProtoKey ==> ps[i].name in Cols(ps) && Cols(ps)[ps[i].name] == ps[i].v
    ensures ps[i].name == ProtoKey ==> ps[i].name !in Cols(ps)
  {
    if i < |ps| - 1 {
      var p := ps[..|ps| - 1];
      assert p[i] == ps[i];
      ColsLastWins(p, i);
    } else {
      assert Cols(ps) == Store(Cols(ps[..|ps| - 1]), ps[i].name, ps[i].v);
      ColsKeys(ps[..|ps| - 1]);
    }
  }

  /** `Math.round((bucketStart + bucketEnd) / 2)`: halves round up. */
  function Center(a: int, b: int): (c: int)
    ensures a <= b ==> a <= c <= b
    ensures 2 * c - 1 <= a + b <= 2 * c
  {
    (a + b + 1) / 2
  }

  /** The loop state: rows flushed so far and the open bucket. */
  datatype Bucket = Bucket(rows: seq<ChartRow>, start: int, end: int, cols: map<string, real>)

  /** `flush()`: close the open bucket into a row. */
  function Flush(b: Bucket): (rows: seq<ChartRow>)
    ensures |rows| == |b.rows| + 1 && rows[..|b.rows|] == b.rows
    ensures b.start <= b.end ==> b.start <= Last(rows).t <= b.end
    ensures Last(rows).cols == b.cols
  {
    b.rows + [ChartRow(Center(b.start, b.end), b.cols)]
  }

  /** One iteration of the loop over `points`. */
  function Step(b: Bucket, p: Point, tol: int): (r: Bucket)
    ensures |r.rows| == |b.rows| + (if p.t - b.end > tol then 1 else 0)
    ensures b.start <= b.end ==> r.start <= r.end
    ensures p.t <= r.end
    ensures p.name != ProtoKey ==> p.name in r.cols && r.cols[p.name] == p.v
  {
    var open := if p.t - b.end > tol then Bucket(Flush(b), p.t, p.t, map[]) else b;
    Bucket(open.rows, open.start, Max(open.end, p.t), Store(open.cols, p.name, p.v))
  }

  /** The loop state after the points `ps`, starting from an empty bucket at `t0`. */
  function Sweep(ps: seq<Point>, tol: int, t0: int): (b: Bucket)
    ensures b.start <= b.end
    ensures |b.rows| <= |ps|
  {
    if |ps| == 0 then Bucket([], t0, t0, map[])
    else Step(Sweep(ps[..|ps| - 1], tol, t0), Last(ps), tol)
  }

  /** `rows`: the loop started at `points[0].t`, then the final `flush()`. */
  function BucketRows(ps: seq<Point>, tol: int): (rows: seq<ChartRow>)
    requires |ps| > 0
    ensures |rows| >= 1
  {
    Flush(Sweep(ps, tol, ps[0].t))
  }

  /** The bucketing loop, statement for statement. */
  method BucketSweep(points: seq<Point>, tolerance: int) returns (rows: seq<ChartRow>)
    requires |points| > 0
    ensures rows == BucketRows(points, tolerance)
  {
    rows := [];
    var bucketStart := points[0].t;
    var bucketEnd := points[0].t;
    var bucketRows: map<string, real> := map[];
    var i := 0;
    while i < |points|
      invariant 0 <= i <= |points|
      invariant Bucket(rows, bucketStart, bucketEnd, bucketRows) == Sweep(points[..i], tolerance, points[0].t)
    {
      var p := points[i];
      assert points[..i + 1][..i] == points[..i];
      if p.t - bucketEnd > tolerance {
        rows := Flush(Bucket(rows, bucketStart, bucketEnd, bucketRows));
        bucketRows := map[];
        bucketStart := p.t;
        bucketEnd := p.t;
      }
      bucketEnd := Max(bucketEnd, p.t);
      bucketRows := Store(bucketRows, p.name, p.v);
      i := i + 1;
    }
    assert points[..|points|] == points;
    rows := Flush(Bucket(rows, bucketStart, bucketEnd, bucketRows));
  }

  // --------------------------------------------------------------- blocks

  /** Point `i` opens a new bucket: it lies more than `tol` after its predecessor. */
  predicate IsBreak(ps: seq<Point>, tol: int, i: int) {
    0 < i < |ps| && ps[i].t - ps[i - 1].t > tol
  }

  /** The first index of every bucket among the points `0..i`. */
  function Starts(ps: seq<Point>, tol: int, i: nat): (st: seq<nat>)
    requires i < |ps|
    ensures |st| >= 1 && st[0] == 0 && Last(st) <= i
    ensures forall k, l :: 0 <= k < l < |st| ==> st[k] < st[l]
    ensures forall k :: 0 < k < |st| ==> IsBreak(ps, tol, st[k])
  {
    if i == 0 then [0] else Starts(ps, tol, i - 1) + (if IsBreak(ps, tol, i) then [i] else [])
  }

  /** Every break, and nothing else after position 0, starts a bucket. */
  lemma {:induction false} StartsAreBreaks(ps: seq<Point>, tol: int, i: nat, j: nat)
    requires j <= i < |ps|
    ensures j in Starts(ps, tol, i) <==> j == 0 || IsBreak(ps, tol, j)
  {
    if i > 0 {
      var st := Starts(ps, tol, i - 1);
      if j < i {
        StartsAreBreaks(ps, tol, i - 1, j);
      } else {
        assert forall k :: 0 <= k < |st| ==> st[k] <= Last(st);
      }
    }
  }

  /** The points `a..b` give the row centred between their first and last
      time, with each series' last value. */
  function BlockRow(ps: seq<Point>, a: nat, b: nat): ChartRow
    requires a < b <= |ps|
  {
    ChartRow(Center(ps[a].t, ps[b - 1].t), Cols(ps[a..b]))
  }

  /** Strictly increasing positions inside `0..n`. */
  ghost predicate ValidBounds(bounds: seq<nat>, n: nat) {
    && |bounds| >= 1
    && (forall k, l :: 0 <= k < l < |bounds| ==> bounds[k] < bounds[l])
    && Last(bounds) <= n
  }

  /** One row for each pair of successive boundaries. */
  function BlockRows(ps: seq<Point>, bounds: seq<nat>): (rows: seq<ChartRow>)
    requires ValidBounds(bounds, |ps|)
    ensures |rows| == |bounds| - 1
  {
    if |bounds| == 1 then []
    else
      var front := bounds[..|bounds| - 1];
      assert Last(front) == bounds[|bounds| - 2];
      BlockRows(ps, front) + [BlockRow(ps, bounds[|bounds| - 2], Last(bounds))]
  }

  lemma {:induction false} BlockRowsAt(ps: seq<Point>, bounds: seq<nat>, k: nat)
    requires ValidBounds(bounds, |ps|) && k < |bounds| - 1
    ensures BlockRows(ps, bounds)[k] == BlockRow(ps, bounds[k], bounds[k + 1])
  {
    var front := bounds[..|bounds| - 1];
    if k < |bounds| - 2 {
      BlockRowsAt(ps, front, k);
    }
  }

  lemma BlockRowsSnoc(ps: seq<Point>, bounds: seq<nat>, x: nat)
    requires ValidBounds(bounds, |ps|) && Last(bounds) < x <= |ps|
    ensures ValidBounds(bounds + [x], |ps|)
    ensures BlockRows(ps, bounds + [x]) == BlockRows(ps, bounds) + [BlockRow(ps, Last(bounds), x)]
  {
    var b := bounds + [x];
    ValidBoundsSnoc(bounds, x, |ps|);
    assert b[..|b| - 1] == bounds;
    assert b[|b| - 2] == Last(bounds) && Last(b) == x;
    assert BlockRows(ps, b) == BlockRows(ps, b[..|b| - 1]) + [BlockRow(ps, b[|b| - 2], Last(b))];
  }

  lemma ValidBoundsSnoc(bounds: seq<nat>, x: nat, n: nat)
    requires ValidBounds(bounds, n) && Last(bounds) < x <= n
    ensures ValidBounds(bounds + [x], n)
  {
    var b := bounds + [x];
    forall k, l | 0 <= k < l < |b|
      ensures b[k] < b[l]
    {
      if l == |bounds| {
        assert bounds[k] <= Last(bounds);
      }
    }
  }

  /** The bucket boundaries: 0, every break, and the end of the points. */
  function Bounds(ps: seq<Point>, tol: int): (bounds: seq<nat>)
    requires |ps| > 0
    ensures ValidBounds(bounds, |ps|)
  {
    var st := Starts(ps, tol, |ps| - 1);
    assert forall k :: 0 <= k < |st| ==> st[k] <= Last(st);
    st + [|ps|]
  }

  /** What the loop knows after visiting the points `0..i`. */
  ghost predicate SweepInvariant(ps: seq<Point>, tol: int, i: nat, b: Bucket)
    requires i < |ps|
  {
    var st := Starts(ps, tol, i);
    && b.end == ps[i].t
    && b.start == ps[Last(st)].t
    && b.cols == Cols(ps[Last(st)..i + 1])
    && ValidBounds(st, |ps|)
    && b.rows == BlockRows(ps, st)
  }

  lemma SweepPrefix(ps: seq<Point>, tol: int, i: nat)
    requires 0 < i < |ps|
    ensures Sweep(ps[..i + 1], tol, ps[0].t) == Step(Sweep(ps[..i], tol, ps[0].t), ps[i], tol)
  {
    assert ps[..i + 1][..i] == ps[..i];
  }

  lemma ColsSnoc(ps: seq<Point>, a: nat, i: nat)
    requires a <= i < |ps|
    ensures Cols(ps[a..i + 1]) == Store(Cols(ps[a..i]), ps[i].name, ps[i].v)
  {
    assert ps[a..i + 1][..i - a] == ps[a..i];
  }

  lemma ColsSingle(p: Point)
    ensures Cols([p]) == Store(map[], p.name, p.v)
  {
    assert [p][..0] == [];
  }

  lemma ColsOne(ps: seq<Point>, i: nat)
    requires i < |ps|
    ensures Cols(ps[i..i + 1]) == Store(map[], ps[i].name, ps[i].v)
  {
    assert ps[i..i + 1] == [ps[i]];
    ColsSingle(ps[i]);
  }

  /** Closing the bucket that opened at `Last(st)` before point `i` adds its block's row. */
  lemma FlushBlock(ps: seq<Point>, st: seq<nat>, i: nat, b: Bucket)
    requires ValidBounds(st, |ps|) && Last(st) < i <= |ps|
    requires b.start == ps[Last(st)].t && b.end == ps[i - 1].t
    requires b.cols == Cols(ps[Last(st)..i]) && b.rows == BlockRows(ps, st)
    ensures ValidBounds(st + [i], |ps|)
    ensures Flush(b) == BlockRows(ps, st + [i])
  {
    BlockRowsSnoc(ps, st, i);
  }

  lemma SweepStepBreak(ps: seq<Point>, tol: int, i: nat, b: Bucket)
    requires 0 < i < |ps| && ps[i - 1].t <= ps[i].t
    requires SweepInvariant(ps, tol, i - 1, b)
    requires IsBreak(ps, tol, i)
    ensures SweepInvariant(ps, tol, i, Step(b, ps[i], tol))
  {
    var st := Starts(ps, tol, i - 1);
    assert Starts(ps, tol, i) == st + [i];
    FlushBlock(ps, st, i, b);
    ColsOne(ps, i);
    assert Step(b, ps[i], tol) == Bucket(Flush(b), ps[i].t, ps[i].t, Store(map[], ps[i].name, ps[i].v));
  }

  lemma SweepStepJoin(ps: seq<Point>, tol: int, i: nat, b: Bucket)
    requires 0 < i < |ps| && ps[i - 1].t <= ps[i].t
    requires SweepInvariant(ps, tol, i - 1, b)
    requires !IsBreak(ps, tol, i)
    ensures SweepInvariant(ps, tol, i, Step(b, ps[i], tol))
  {
    var st := Starts(ps, tol, i - 1);
    assert Starts(ps, tol, i) == st;
    ColsSnoc(ps, Last(st), i);
  }

  lemma SweepFirst(ps: seq<Point>, tol: int)
    requires |ps| > 0 && tol >= 0
    ensures SweepInvariant(ps, tol, 0, Sweep(ps[..1], tol, ps[0].t))
  {
    assert ps[..1][..0] == [];
    assert ps[0..1] == [ps[0]] == ps[..1];
    ColsSingle(ps[0]);
  }

  /** The loop keeps its invariant over time-ordered points. */
  lemma {:induction false} SweepKeepsInvariant(ps: seq<Point>, tol: int, i: nat)
    requires i < |ps| && TimeOrdered(ps) && tol >= 0
    ensures SweepInvariant(ps, tol, i, Sweep(ps[..i + 1], tol, ps[0].t))
  {
    if i == 0 {
      SweepFirst(ps, tol);
    } else {
      SweepKeepsInvariant(ps, tol, i - 1);
      SweepPrefix(ps, tol, i);
      var b := Sweep(ps[..i], tol, ps[0].t);
      if IsBreak(ps, tol, i) {
        SweepStepBreak(ps, tol, i, b);
      } else {
        SweepStepJoin(ps, tol, i, b);
      }
    }
  }

  /** The loop state once every point has been visited. */
  lemma SweepDone(ps: seq<Point>, tol: int)
    requires |ps| > 0 && TimeOrdered(ps) && tol >= 0
    ensures SweepInvariant(ps, tol, |ps| - 1, Sweep(ps, tol, ps[0].t))
  {
    SweepKeepsInvariant(ps, tol, |ps| - 1);
    assert ps[..|ps|] == ps;
  }

  /** Over time-ordered points the loop emits exactly one row per bucket,
      the buckets being the maximal runs of points each within `tol` of its
      predecessor. */
  lemma BucketRowsAreBlocks(ps: seq<Point>, tol: int)
    requires |ps| > 0 && TimeOrdered(ps) && tol >= 0
    ensures BucketRows(ps, tol) == BlockRows(ps, Bounds(ps, tol))
  {
    var n := |ps|;
    SweepDone(ps, tol);
    FlushBlock(ps, Starts(ps, tol, n - 1), n, Sweep(ps, tol, ps[0].t));
  }

  // ------------------------------------------------------------- row facts

  function RowTimes(rows: seq<ChartRow>): (ts: seq<int>)
    ensures |ts| == |rows|
    ensures forall k :: 0 <= k < |rows| ==> ts[k] == rows[k].t
  {
    seq(|rows|, k requires 0 <= k < |rows| => rows[k].t)
  }

  lemma {:induction false} IncreasingFromAdjacent(xs: seq<int>)
    requires forall k :: 0 <= k < |xs| - 1 ==> xs[k] < xs[k + 1]
    ensures StrictlyIncreasing(xs)
  {
    if |xs| > 1 {
      var p := xs[..|xs| - 1];
      assert forall k :: 0 <= k < |p| ==> p[k] == xs[k];
      IncreasingFromAdjacent(p);
      forall i, j | 0 <= i < j < |xs|
        ensures xs[i] < xs[j]
      {
        if j < |xs| - 1 {
          assert xs[i] == p[i] && xs[j] == p[j];
        } else if i < j - 1 {
          assert xs[i] == p[i] && xs[j - 1] == p[j - 1];
        }
      }
    }
  }

  /** The row of bucket `k` lies strictly before the row of bucket `k + 1`. */
  lemma AdjacentRowsIncrease(ps: seq<Point>, tol: int, k: nat)
    requires |ps| > 0 && TimeOrdered(ps) && tol >= 0
    requires k + 1 < |Bounds(ps, tol)| - 1
    ensures BlockRows(ps, Bounds(ps, tol))[k].t < BlockRows(ps, Bounds(ps, tol))[k + 1].t
  {
    var bounds := Bounds(ps, tol);
    var st := Starts(ps, tol, |ps| - 1);
    BlockRowsAt(ps, bounds, k);
    BlockRowsAt(ps, bounds, k + 1);
    assert bounds[k + 1] == st[k + 1];
    assert IsBreak(ps, tol, bounds[k + 1]);
    assert ps[bounds[k]].t <= ps[bounds[k + 1] - 1].t;
    assert ps[bounds[k + 1]].t <= ps[bounds[k + 2] - 1].t;
  }

  /** Over time-ordered points the row times strictly increase and stay
      within the span of the points. */
  lemma RowTimesIncrease(ps: seq<Point>, tol: int)
    requires |ps| > 0 && TimeOrdered(ps) && tol >= 0
    ensures StrictlyIncreasing(RowTimes(BucketRows(ps, tol)))
    ensures forall k :: 0 <= k < |BucketRows(ps, tol)| ==>
              ps[0].t <= BucketRows(ps, tol)[k].t <= Last(ps).t
  {
    var bounds := Bounds(ps, tol);
    var rows := BucketRows(ps, tol);
    BucketRowsAreBlocks(ps, tol);
    forall k | 0 <= k < |rows| - 1
      ensures RowTimes(rows)[k] < RowTimes(rows)[k + 1]
    {
      AdjacentRowsIncrease(ps, tol, k);
    }
    IncreasingFromAdjacent(RowTimes(rows));
    forall k | 0 <= k < |rows|
      ensures ps[0].t <= rows[k].t <= Last(ps).t
    {
      BlockRowsAt(ps, bounds, k);
      assert ps[0].t <= ps[bounds[k]].t;
      assert ps[bounds[k + 1] - 1].t <= Last(ps).t;
    }
  }

  /** Apart from position 0, a point opens a bucket exactly when it lies more
      than `tol` after its predecessor. */
  lemma BoundsAreBreaks(ps: seq<Point>, tol: int, j: nat)
    requires 0 < j < |ps|
    ensures j in Bounds(ps, tol) <==> IsBreak(ps, tol, j)
  {
    StartsAreBreaks(ps, tol, |ps| - 1, j);
  }

  /** The positions `1..i` whose point lies more than `tol` after its predecessor. */
  ghost function BreaksUpTo(ps: seq<Point>, tol: int, i: nat): set<nat>
    requires i < |ps|
  {
    set j: nat | 0 < j <= i && IsBreak(ps, tol, j)
  }

  lemma {:induction false} StartsCount(ps: seq<Point>, tol: int, i: nat)
    requires i < |ps|
    ensures |Starts(ps, tol, i)| == 1 + |BreaksUpTo(ps, tol, i)|
  {
    if i == 0 {
      assert BreaksUpTo(ps, tol, 0) == {};
    } else {
      StartsCount(ps, tol, i - 1);
      if IsBreak(ps, tol, i) {
        assert BreaksUpTo(ps, tol, i) == BreaksUpTo(ps, tol, i - 1) + {i};
      } else {
        assert BreaksUpTo(ps, tol, i) == BreaksUpTo(ps, tol, i - 1);
      }
    }
  }

  /** There is one row more than there are gaps between successive points
      wider than the tolerance. */
  lemma BucketCount(ps: seq<Point>, tol: int)
    requires |ps| > 0 && TimeOrdered(ps) && tol >= 0
    ensures |BucketRows(ps, tol)| == 1 + |BreaksUpTo(ps, tol, |ps| - 1)|
  {
    BucketRowsAreBlocks(ps, tol);
    StartsCount(ps, tol, |ps| - 1);
  }

  /** The bucket holding point `i`. */
  function BlockIndex(bounds: seq<nat>, i: nat): (k: nat)
    requires |bounds| >= 2 && bounds[0] <= i < Last(bounds)
    requires forall a, b :: 0 <= a < b < |bounds| ==> bounds[a] < bounds[b]
    ensures k < |bounds| - 1 && bounds[k] <= i < bounds[k + 1]
  {
    if bounds[|bounds| - 2] <= i then |bounds| - 2
    else BlockIndex(bounds[..|bounds| - 1], i)
  }

  /** A point's series has a column in the row of any block holding it
      (unless it is "__proto__"), with the point's value when no later point
      of the block shares it. */
  lemma PointInBlock(ps: seq<Point>, a: nat, b: nat, i: nat)
    requires a <= i < b <= |ps|
    ensures ps[i].name in BlockRow(ps, a, b).cols <==> ps[i].name != ProtoKey
    ensures ps[i].name != ProtoKey && (forall j :: i < j < b ==> ps[j].name != ps[i].name)
            ==> BlockRow(ps, a, b).cols[ps[i].name] == ps[i].v
  {
    var block := ps[a..b];
    var o := i - a;
    assert block[o] == ps[i];
    ColsKeys(block);
    assert Names(block)[o] == ps[i].name;
    assert Names(block)[o] in Names(block);
    if forall j :: i < j < b ==> ps[j].name != ps[i].name {
      forall j | o < j < |block|
        ensures block[j].name != block[o].name
      {
        assert block[j] == ps[a + j];
      }
      ColsLastWins(block, o);
    }
  }

  /** Every point's series except "__proto__" has a column in the row of its
      bucket, holding the point's value when no later point of that series
      shares the bucket. */
  lemma PointInItsRow(ps: seq<Point>, tol: int, i: nat)
    requires i < |ps| && TimeOrdered(ps) && tol >= 0
    ensures var bounds := Bounds(ps, tol);
      var k := BlockIndex(bounds, i);
      && |BucketRows(ps, tol)| == |bounds| - 1
      && (ps[i].name in BucketRows(ps, tol)[k].cols <==> ps[i].name != ProtoKey)
      && (ps[i].name != ProtoKey && (forall j :: i < j < bounds[k + 1] ==> ps[j].name != ps[i].name)
          ==> BucketRows(ps, tol)[k].cols[ps[i].name] == ps[i].v)
  {
    var bounds := Bounds(ps, tol);
    var k := BlockIndex(bounds, i);
    BucketRowsAreBlocks(ps, tol);
    BlockRowsAt(ps, bounds, k);
    PointInBlock(ps, bounds[k], bounds[k + 1], i);
  }

  /** The fallback of `medianGap || 60_000` never applies: distinct times
      have positive gaps, so the median is positive. */
  lemma MedianGapOfPointsPositive(ps: seq<Point>)
    ensures MedianGap(Gaps(UniqueTimes(ps))) > 0
  {
    UniqueTimesIncrease(ps);
    GapsPositive(UniqueTimes(ps));
    MedianGapPositive(Gaps(UniqueTimes(ps)));
  }

  // ------------------------------------------------------------- the chart

  /** `{ chartData, seriesNames }`. */
  datatype ChartData = ChartData(rows: seq<ChartRow>, seriesNames: seq<string>)

  /** Reading `points[0].t` when no point survived the filter throws. */
  datatype ChartError = NoFinitePoint

  /** The tolerance the chart uses for its points. */
  function ChartTolerance(ps: seq<Point>): (tol: int)
    ensures 5000 <= tol <= 300000
  {
    Tolerance(MedianGap(Gaps(UniqueTimes(ps))))
  }

  /** The `useMemo` body: empty output for empty input, an error when no
      value is finite, otherwise the bucketed rows and the series names in
      order of first appearance along the time-sorted points. */
  function PrepareChart(data: seq<Snapshot>): (r: Result<ChartData, ChartError>)
    ensures |data| == 0 ==> r == Success(ChartData([], []))
    ensures r.Failure? <==> |data| > 0 && |CleanPoints(data)| == 0
    ensures r.Success? && |data| > 0 ==> |r.value.rows| >= 1
  {
    if |data| == 0 then Success(ChartData([], []))
    else
      var points := Points(data);
      if |points| == 0 then Failure(NoFinitePoint)
      else Success(ChartData(BucketRows(points, ChartTolerance(points)), Distinct(Names(points))))
  }

  /** The chart fails exactly on non-empty input without a finite value. */
  lemma ChartFailsIffNoFiniteValue(data: seq<Snapshot>)
    ensures PrepareChart(data).Failure?
        <==> |data| > 0 && forall i :: 0 <= i < |data| ==> data[i].value.None?
  {
    CleanPointsMembers(data);
    if |CleanPoints(data)| > 0 {
      assert CleanPoints(data)[0] in CleanPoints(data);
    }
  }

  /** The rows are the buckets of the time-sorted points under a tolerance
      between five seconds and five minutes, in strictly increasing time. */
  lemma ChartRowsAreBuckets(data: seq<Snapshot>)
    requires PrepareChart(data).Success? && |data| > 0
    ensures var ps := Points(data);
      && |ps| > 0
      && PrepareChart(data).value.rows == BlockRows(ps, Bounds(ps, ChartTolerance(ps)))
      && StrictlyIncreasing(RowTimes(PrepareChart(data).value.rows))
  {
    var ps := Points(data);
    PointsTimeOrdered(data);
    BucketRowsAreBlocks(ps, ChartTolerance(ps));
    RowTimesIncrease(ps, ChartTolerance(ps));
  }

  ghost predicate NamedFinite(data: seq<Snapshot>, n: string) {
    exists i :: 0 <= i < |data| && data[i].value.Some? && SeriesName(data[i]) == n
  }

  lemma SeriesNameIsNamedFinite(data: seq<Snapshot>, n: string)
    requires n in Names(Points(data))
    ensures NamedFinite(data, n)
  {
    var ps := Points(data);
    var k :| 0 <= k < |Names(ps)| && Names(ps)[k] == n;
    PointsTimeOrdered(data);
    assert ps[k] in multiset(CleanPoints(data));
    assert ps[k] in CleanPoints(data);
    CleanPointsMembers(data);
    var i :| 0 <= i < |data| && data[i].value.Some? && ToPoint(data[i]) == ps[k];
    assert SeriesName(data[i]) == n;
  }

  lemma NamedFiniteIsSeriesName(data: seq<Snapshot>, n: string)
    requires NamedFinite(data, n)
    ensures n in Names(Points(data))
  {
    var ps := Points(data);
    var i :| 0 <= i < |data| && data[i].value.Some? && SeriesName(data[i]) == n;
    CleanPointsMembers(data);
    PointsTimeOrdered(data);
    assert ToPoint(data[i]) in multiset(ps);
    var k :| 0 <= k < |ps| && ps[k] == ToPoint(data[i]);
    assert Names(ps)[k] == n;
  }

  /** Every name of a snapshot with a finite value is a series, once, and no
      other name is. */
  lemma ChartSeriesNames(data: seq<Snapshot>, n: string)
    requires PrepareChart(data).Success?
    ensures NoDuplicates(PrepareChart(data).value.seriesNames)
    ensures n in PrepareChart(data).value.seriesNames <==> NamedFinite(data, n)
  {
    if |data| > 0 {
      if n in Names(Points(data)) {
        SeriesNameIsNamedFinite(data, n);
      }
      if NamedFinite(data, n) {
        NamedFiniteIsSeriesName(data, n);
      }
    }
  }

  /** Series are listed in the order their first point appears along the
      time-sorted points (a `Set` iterates in insertion order). */
  lemma ChartSeriesOrder(data: seq<Snapshot>, i: nat, j: nat)
    requires PrepareChart(data).Success? && |data| > 0
    requires i < j < |PrepareChart(data).value.seriesNames|
    ensures var names := PrepareChart(data).value.seriesNames;
      FirstIndex(Names(Points(data)), names[i]) < FirstIndex(Names(Points(data)), names[j])
  {
    DistinctFirstAppearanceOrder(Names(Points(data)), i, j);
  }

  // ------------------------------------------------- the `t` column clash

  /** A value in a row object: the time or a series value. */
  datatype Cell = Time(ms: int) | Value(v: real)

  /** The object literal `{ t: center, ...bucketRows }` as written: the spread
      comes last, so a series named "t" replaces the time. */
  function RecordAsWritten(r: ChartRow): (m: map<string, Cell>)
    ensures forall n :: n in r.cols ==> n in m && m[n] == Value(r.cols[n])
    ensures "t" !in r.cols ==> "t" in m && m["t"] == Time(r.t)
    ensures forall n :: n in m ==> n == "t" || n in r.cols
  {
    map["t" := Time(r.t)] + map n | n in r.cols :: Value(r.cols[n])
  }

  /** A model named "t" moves its value into the time column. */
  lemma SeriesNamedTHidesTime()
    ensures var r := ChartRow(1000, map["t" := 5.0]);
      RecordAsWritten(r)["t"] == Value(5.0) && RecordAsWritten(r)["t"] != Time(r.t)
  {
  }

  /** The record with the time written last, so the time column always holds
      the bucket centre. */
  function Record(r: ChartRow): (m: map<string, Cell>)
    ensures "t" in m && m["t"] == Time(r.t)
    ensures forall n :: n in r.cols && n != "t" ==> n in m && m[n] == Value(r.cols[n])
    ensures forall n :: n in m ==> n == "t" || n in r.cols
  {
    (map n | n in r.cols :: Value(r.cols[n])) + map["t" := Time(r.t)]
  }

  /** Both records agree on every series other than "t". */
  lemma RecordsAgreeOffT(r: ChartRow, n: string)
    requires n != "t"
    ensures n in RecordAsWritten(r) <==> n in Record(r)
    ensures n in Record(r) ==> RecordAsWritten(r)[n] == Record(r)[n]
  {
  }

  /** The row objects handed to the chart, each written by `Record`. */
  function ChartRecords(rows: seq<ChartRow>): (recs: seq<map<string, Cell>>)
    ensures |recs| == |rows|
    ensures forall k :: 0 <= k < |rows| ==> "t" in recs[k] && recs[k]["t"] == Time(rows[k].t)
  {
    seq(|rows|, k requires 0 <= k < |rows| => Record(rows[k]))
  }

  /** With the time written last, the chart's x-axis values strictly
      increase along the rows, whatever the series are called. */
  lemma ChartRecordTimesIncrease(data: seq<Snapshot>, i: nat, j: nat)
    requires PrepareChart(data).Success? && |data| > 0
    requires i < j < |PrepareChart(data).value.rows|
    ensures var recs := ChartRecords(PrepareChart(data).value.rows);
      recs[i]["t"].Time? && recs[j]["t"].Time? && recs[i]["t"].ms < recs[j]["t"].ms
  {
    var rows := PrepareChart(data).value.rows;
    ChartRowsAreBuckets(data);
    assert RowTimes(rows)[i] < RowTimes(rows)[j];
  }
}
