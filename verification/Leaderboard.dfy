/** The leaderboard's `rows` computation: snapshots inside a trailing
    window are grouped by model, each model with at least two finite values
    is summarised (first and last value, absolute and percentage PnL,
    drawdown), and the summaries are ranked by a chosen metric. */
module Leaderboard {
  import opened Wrappers
  import opened Seqs
  import opened StableSort
  import opened Drawdown
  import opened Snapshots

  // ---------------------------------------------------------------- window

  /** The selectable trailing windows "24h", "7d" and "30d". */
  datatype Window = Day | Week | Month

  const DayMs: int := 24 * 60 * 60 * 1000

  /** `WINDOW_MS`: the length of each window in milliseconds. */
  function WindowMs(w: Window): (ms: int)
    ensures ms >= DayMs
    ensures ms % DayMs == 0
  {
    match w
    case Day => 24 * 60 * 60 * 1000
    case Week => 7 * 24 * 60 * 60 * 1000
    case Month => 30 * 24 * 60 * 60 * 1000
  }

  /** A snapshot is kept unless its time is strictly before `now - WINDOW_MS[win]`. */
  predicate InWindow(s: Snapshot, now: int, w: Window) {
    !(s.t < now - WindowMs(w))
  }

  /** A longer window keeps everything a shorter one keeps. */
  lemma WindowsNested(s: Snapshot, now: int)
    ensures InWindow(s, now, Day) ==> InWindow(s, now, Week)
    ensures InWindow(s, now, Week) ==> InWindow(s, now, Month)
    ensures InWindow(s, now, Month) <==> now - 30 * DayMs <= s.t
  {
  }

  // -------------------------------------------------------------- grouping

  /** One entry of the `byModel` map: a key and the snapshots pushed under it. */
  datatype Group = Group(key: string, members: seq<Snapshot>)

  /** `byModel.get(name) || []`, push, `byModel.set(name, ...)`: a `Map`
      keeps its keys in insertion order, so a new key goes at the end. */
  function AddToGroup(gs: seq<Group>, k: string, s: Snapshot): (r: seq<Group>)
    ensures |r| == |gs| || |r| == |gs| + 1
  {
    if |gs| == 0 then [Group(k, [s])]
    else if gs[0].key == k then [Group(k, gs[0].members + [s])] + gs[1..]
    else [gs[0]] + AddToGroup(gs[1..], k, s)
  }

  /** The grouping loop over `data`, skipping snapshots outside the window. */
  function GroupByModel(snaps: seq<Snapshot>, now: int, w: Window): (gs: seq<Group>)
    ensures |gs| <= |snaps|
  {
    if |snaps| == 0 then []
    else
      var gs := GroupByModel(snaps[..|snaps| - 1], now, w);
      var s := Last(snaps);
      if !InWindow(s, now, w) then gs else AddToGroup(gs, GroupKey(s), s)
  }

  function IsRecent(now: int, w: Window): Snapshot -> bool {
    s => InWindow(s, now, w)
  }

  function IsMember(now: int, w: Window, k: string): Snapshot -> bool {
    s => InWindow(s, now, w) && GroupKey(s) == k
  }

  /** The in-window snapshots of `snaps`, in input order. */
  function Recent(snaps: seq<Snapshot>, now: int, w: Window): seq<Snapshot> {
    Filter(snaps, IsRecent(now, w))
  }

  function KeysOf(snaps: seq<Snapshot>): (ks: seq<string>)
    ensures |ks| == |snaps|
    ensures forall i :: 0 <= i < |snaps| ==> ks[i] == GroupKey(snaps[i])
  {
    seq(|snaps|, i requires 0 <= i < |snaps| => GroupKey(snaps[i]))
  }

  /** The keys of the in-window snapshots, once each, by first appearance. */
  function ModelKeys(snaps: seq<Snapshot>, now: int, w: Window): seq<string> {
    Distinct(KeysOf(Recent(snaps, now, w)))
  }

  /** The in-window snapshots whose key is `k`, in input order. */
  function Members(snaps: seq<Snapshot>, now: int, w: Window, k: string): seq<Snapshot> {
    Filter(snaps, IsMember(now, w, k))
  }

  /** The grouping described without the loop: one group per distinct key,
      holding exactly the in-window snapshots with that key. */
  ghost predicate GroupsOf(snaps: seq<Snapshot>, now: int, w: Window, gs: seq<Group>) {
    var keys := ModelKeys(snaps, now, w);
    && |gs| == |keys|
    && forall i :: 0 <= i < |gs| ==> gs[i] == Group(keys[i], Members(snaps, now, w, keys[i]))
  }

  lemma {:induction false} AddToGroupExisting(gs: seq<Group>, j: nat, s: Snapshot)
    requires j < |gs|
    requires forall i :: 0 <= i < j ==> gs[i].key != gs[j].key
    ensures AddToGroup(gs, gs[j].key, s) == gs[j := Group(gs[j].key, gs[j].members + [s])]
  {
    if j > 0 {
      AddToGroupExisting(gs[1..], j - 1, s);
    }
  }

  lemma {:induction false} AddToGroupNew(gs: seq<Group>, k: string, s: Snapshot)
    requires forall i :: 0 <= i < |gs| ==> gs[i].key != k
    ensures AddToGroup(gs, k, s) == gs + [Group(k, [s])]
  {
    if |gs| > 0 {
      AddToGroupNew(gs[1..], k, s);
    }
  }

  lemma RecentSnoc(p: seq<Snapshot>, s: Snapshot, now: int, w: Window)
    ensures Recent(p + [s], now, w) == Recent(p, now, w) + (if InWindow(s, now, w) then [s] else [])
  {
    FilterAppend(p, [s], IsRecent(now, w));
  }

  lemma MembersSnoc(p: seq<Snapshot>, s: Snapshot, now: int, w: Window, k: string)
    ensures Members(p + [s], now, w, k)
         == Members(p, now, w, k) + (if InWindow(s, now, w) && GroupKey(s) == k then [s] else [])
  {
    FilterAppend(p, [s], IsMember(now, w, k));
  }

  lemma ModelKeysSnoc(p: seq<Snapshot>, s: Snapshot, now: int, w: Window)
    ensures var keys := ModelKeys(p, now, w);
      ModelKeys(p + [s], now, w)
      == if !InWindow(s, now, w) || GroupKey(s) in keys then keys else keys + [GroupKey(s)]
  {
    RecentSnoc(p, s, now, w);
    var rp := Recent(p, now, w);
    if InWindow(s, now, w) {
      var ks := KeysOf(rp) + [GroupKey(s)];
      assert KeysOf(Recent(p + [s], now, w)) == ks;
      assert ks[..|ks| - 1] == KeysOf(rp);
      assert Last(ks) == GroupKey(s);
    } else {
      assert Recent(p + [s], now, w) == rp + [] == rp;
    }
  }

  /** A key that is not among the in-window keys has no members. */
  lemma MembersOfUnseenKey(p: seq<Snapshot>, now: int, w: Window, k: string)
    requires k !in ModelKeys(p, now, w)
    ensures Members(p, now, w, k) == []
  {
    var rp := Recent(p, now, w);
    forall i | 0 <= i < |p|
      ensures !(InWindow(p[i], now, w) && GroupKey(p[i]) == k)
    {
      if InWindow(p[i], now, w) {
        assert p[i] in rp;
        var m :| 0 <= m < |rp| && rp[m] == p[i];
        assert KeysOf(rp)[m] == GroupKey(p[i]);
      }
    }
    FilterNoneKept(p, IsMember(now, w, k));
  }

  lemma GroupStepSkip(p: seq<Snapshot>, s: Snapshot, now: int, w: Window, gs: seq<Group>)
    requires GroupsOf(p, now, w, gs)
    requires !InWindow(s, now, w)
    ensures GroupsOf(p + [s], now, w, gs)
  {
    ModelKeysSnoc(p, s, now, w);
    var keys := ModelKeys(p, now, w);
    forall i | 0 <= i < |gs|
      ensures gs[i] == Group(keys[i], Members(p + [s], now, w, keys[i]))
    {
      MembersSnoc(p, s, now, w, keys[i]);
    }
  }

  lemma GroupStepExisting(p: seq<Snapshot>, s: Snapshot, now: int, w: Window, gs: seq<Group>)
    requires GroupsOf(p, now, w, gs)
    requires InWindow(s, now, w) && GroupKey(s) in ModelKeys(p, now, w)
    ensures GroupsOf(p + [s], now, w, AddToGroup(gs, GroupKey(s), s))
  {
    ModelKeysSnoc(p, s, now, w);
    var keys := ModelKeys(p, now, w);
    var k := GroupKey(s);
    var j := FirstIndex(keys, k);
    assert gs[j].key == k;
    AddToGroupExisting(gs, j, s);
    var gs' := AddToGroup(gs, k, s);
    forall i | 0 <= i < |gs'|
      ensures gs'[i] == Group(keys[i], Members(p + [s], now, w, keys[i]))
    {
      MembersSnoc(p, s, now, w, keys[i]);
    }
  }

  lemma GroupStepNew(p: seq<Snapshot>, s: Snapshot, now: int, w: Window, gs: seq<Group>)
    requires GroupsOf(p, now, w, gs)
    requires InWindow(s, now, w) && GroupKey(s) !in ModelKeys(p, now, w)
    ensures GroupsOf(p + [s], now, w, AddToGroup(gs, GroupKey(s), s))
  {
    ModelKeysSnoc(p, s, now, w);
    var k := GroupKey(s);
    AddToGroupNew(gs, k, s);
    MembersOfUnseenKey(p, now, w, k);
    MembersSnoc(p, s, now, w, k);
    MembersUnchanged(p, s, now, w, gs);
    GroupsOfSnocNew(p, s, now, w, gs, k);
  }

  lemma MembersUnchanged(p: seq<Snapshot>, s: Snapshot, now: int, w: Window, gs: seq<Group>)
    requires GroupsOf(p, now, w, gs)
    requires GroupKey(s) !in ModelKeys(p, now, w)
    ensures forall i :: 0 <= i < |gs| ==> Members(p + [s], now, w, gs[i].key) == gs[i].members
  {
    forall i | 0 <= i < |gs|
      ensures Members(p + [s], now, w, gs[i].key) == gs[i].members
    {
      MembersSnoc(p, s, now, w, gs[i].key);
    }
  }

  lemma GroupsOfSnocNew(p: seq<Snapshot>, s: Snapshot, now: int, w: Window, gs: seq<Group>, k: string)
    requires GroupsOf(p, now, w, gs)
    requires ModelKeys(p + [s], now, w) == ModelKeys(p, now, w) + [k]
    requires Members(p + [s], now, w, k) == [s]
    requires forall i :: 0 <= i < |gs| ==> Members(p + [s], now, w, gs[i].key) == gs[i].members
    ensures GroupsOf(p + [s], now, w, gs + [Group(k, [s])])
  {
  }

  /** The grouping loop builds exactly one group per distinct in-window key,
      in order of first appearance, holding that key's in-window snapshots in
      input order. */
  lemma {:induction false} GroupByModelGroups(snaps: seq<Snapshot>, now: int, w: Window)
    ensures GroupsOf(snaps, now, w, GroupByModel(snaps, now, w))
  {
    if |snaps| > 0 {
      var p := snaps[..|snaps| - 1];
      var s := Last(snaps);
      assert snaps == p + [s];
      GroupByModelGroups(p, now, w);
      var gs := GroupByModel(p, now, w);
      if !InWindow(s, now, w) {
        GroupStepSkip(p, s, now, w, gs);
      } else if GroupKey(s) in ModelKeys(p, now, w) {
        GroupStepExisting(p, s, now, w, gs);
      } else {
        GroupStepNew(p, s, now, w, gs);
      }
    }
  }

  // ------------------------------------------------------------- summaries

  /** A point `{ t, v }` whose value survived the `Number.isFinite` filter. */
  datatype Sample = Sample(t: int, v: real)

  /** The sample a snapshot contributes when its value is finite. */
  function AsSample(s: Snapshot): Option<Sample> {
    if s.value.Some? then Some(Sample(s.t, s.value.value)) else None
  }

  /** Map each snapshot to `{ t, v }` and drop the non-finite values. */
  function Samples(ms: seq<Snapshot>): (r: seq<Sample>)
    ensures |r| <= |ms|
  {
    FilterMap(ms, AsSample)
  }

  /** The comparator `(a, b) => a.t - b.t`: the earlier point goes first. */
  predicate Earlier(a: Sample, b: Sample) {
    a.t < b.t
  }

  lemma EarlierIsStrictWeakOrder()
    ensures StrictWeakOrder(Earlier)
  {
  }

  function Values(ss: seq<Sample>): (vs: seq<real>)
    ensures |vs| == |ss|
    ensures forall i :: 0 <= i < |ss| ==> vs[i] == ss[i].v
  {
    seq(|ss|, i requires 0 <= i < |ss| => ss[i].v)
  }

  /** One leaderboard row. Every emitted row has `pnlAbs`, `start` and `end`;
      `pnlPct` and `drawdown` may be `undefined`. */
  datatype Row = Row(name: string, pnlPct: Option<real>, pnlAbs: real, drawdown: Option<real>,
                     start: real, end: real)

  /** `computeMaxDrawdown(...) || undefined`: `null` and `0` both become `undefined`. */
  function OrUndefined(d: Option<real>): (r: Option<real>)
    ensures r.Some? ==> r.value != 0.0 && r == d
    ensures d.Some? && d.value != 0.0 ==> r == d
  {
    if d.Some? && d.value != 0.0 then d else None
  }

  /** `first !== 0 ? pnlAbs / first : undefined`: `undefined` exactly for a
      zero start, and otherwise the fraction that scales the start to the
      absolute PnL. */
  function PnlPctOf(pnlAbs: real, first: real): (p: Option<real>)
    ensures p.None? <==> first == 0.0
    ensures p.Some? ==> p.value * first == pnlAbs
  {
    if first != 0.0 then Some(pnlAbs / first) else None
  }

  function Summarize(g: Group): (r: Option<Row>)
    ensures r.Some? <==> |Samples(g.members)| >= 2
    ensures r.Some? ==> r.value.name == g.key
    ensures r.Some? ==> r.value.pnlAbs == r.value.end - r.value.start
    ensures r.Some? ==> (r.value.pnlPct.None? <==> r.value.start == 0.0)
    ensures r.Some? && r.value.pnlPct.Some? ==> r.value.pnlPct.value * r.value.start == r.value.pnlAbs
  {
    var sorted := Sort(Samples(g.members), Earlier);
    if |sorted| < 2 then None
    else
      var first := sorted[0].v;
      var last := Last(sorted).v;
      var pnlAbs := last - first;
      var pnlPct := PnlPctOf(pnlAbs, first);
      var drawdown := OrUndefined(MaxDrawdown(Values(sorted)));
      Some(Row(g.key, pnlPct, pnlAbs, drawdown, first, last))
  }

  /** `result`: the rows pushed while iterating the groups in order. */
  function Summaries(gs: seq<Group>): (rs: seq<Row>)
    ensures |rs| <= |gs|
  {
    FilterMap(gs, Summarize)
  }

  // --------------------------------------------------------------- ranking

  /** The metric selected by `sortKey`. */
  datatype SortKey = PnlPct | PnlAbs | DrawdownKey

  function Metric(r: Row, k: SortKey): (m: Option<real>)
    ensures k == PnlAbs ==> m.Some?
  {
    match k
    case PnlPct => r.pnlPct
    case PnlAbs => Some(r.pnlAbs)
    case DrawdownKey => r.drawdown
  }

  /** The comparator `(b[k] ?? -Infinity) - (a[k] ?? -Infinity)` is negative,
      i.e. `a` goes first: `a` has a metric and `b` has none or a smaller one.
      Two missing metrics give NaN, which the sort treats as equal. */
  predicate Outranks(k: SortKey, a: Row, b: Row) {
    Metric(a, k).Some? && (Metric(b, k).None? || Metric(a, k).value > Metric(b, k).value)
  }

  function RankOrder(k: SortKey): (Row, Row) -> bool {
    (a, b) => Outranks(k, a, b)
  }

  lemma RankOrderIsStrictWeakOrder(k: SortKey)
    ensures StrictWeakOrder(RankOrder(k))
  {
  }

  /** `a`'s metric is at least `b`'s, reading a missing metric as -Infinity. */
  predicate AtLeast(a: Option<real>, b: Option<real>) {
    b.None? || (a.Some? && a.value >= b.value)
  }

  /** The `rows` memo: empty until `data` has loaded. */
  function LeaderboardRows(data: Option<seq<Snapshot>>, now: int, w: Window, k: SortKey): (rows: seq<Row>)
    ensures data.None? ==> rows == []
    ensures data.Some? ==> |rows| <= |data.value|
  {
    match data
    case None => []
    case Some(snaps) => Sort(Summaries(GroupByModel(snaps, now, w)), RankOrder(k))
  }

  // ------------------------------------------------------------ properties

  /** The rows are ordered by the selected metric, largest first, rows
      without the metric last, and are a rearrangement of the summaries. */
  lemma LeaderboardRanked(data: Option<seq<Snapshot>>, now: int, w: Window, k: SortKey)
    ensures var rows := LeaderboardRows(data, now, w, k);
      forall i, j :: 0 <= i < j < |rows| ==> AtLeast(Metric(rows[i], k), Metric(rows[j], k))
    ensures data.Some? ==>
      multiset(LeaderboardRows(data, now, w, k)) == multiset(Summaries(GroupByModel(data.value, now, w)))
    ensures data.None? ==> LeaderboardRows(data, now, w, k) == []
  {
    if data.Some? {
      RankOrderIsStrictWeakOrder(k);
      SortIsSorted(Summaries(GroupByModel(data.value, now, w)), RankOrder(k));
    }
  }

  lemma TiedIffSameMetric(k: SortKey, a: Row, b: Row)
    ensures Tied(RankOrder(k), a, b) <==> Metric(a, k) == Metric(b, k)
  {
  }

  lemma RankingIsStable(rows: seq<Row>, k: SortKey, probe: Row)
    ensures Filter(Sort(rows, RankOrder(k)), y => Tied(RankOrder(k), y, probe))
         == Filter(rows, y => Tied(RankOrder(k), y, probe))
  {
    RankOrderIsStrictWeakOrder(k);
    SortIsStable(rows, RankOrder(k), probe);
  }

  function HasMetric(k: SortKey, m: Option<real>): Row -> bool {
    r => Metric(r, k) == m
  }

  /** Rows whose metrics are equal keep the order of the per-model
      summaries (the sort is stable). */
  lemma LeaderboardTiesKeepOrder(snaps: seq<Snapshot>, now: int, w: Window, k: SortKey, m: Option<real>)
    ensures Filter(LeaderboardRows(Some(snaps), now, w, k), HasMetric(k, m))
         == Filter(Summaries(GroupByModel(snaps, now, w)), HasMetric(k, m))
  {
    var summaries := Summaries(GroupByModel(snaps, now, w));
    var rows := LeaderboardRows(Some(snaps), now, w, k);
    var probe := Row("", m, if m.Some? then m.value else 0.0, m, 0.0, 0.0);
    RankingIsStable(summaries, k, probe);
    if k == PnlAbs && m.None? {
      FilterNoneKept(rows, HasMetric(k, m));
      FilterNoneKept(summaries, HasMetric(k, m));
    } else {
      assert Metric(probe, k) == m;
      forall y: Row
        ensures HasMetric(k, m)(y) <==> Tied(RankOrder(k), y, probe)
      {
        TiedIffSameMetric(k, y, probe);
      }
      FilterCongruent(rows, HasMetric(k, m), y => Tied(RankOrder(k), y, probe));
      FilterCongruent(summaries, HasMetric(k, m), y => Tied(RankOrder(k), y, probe));
    }
  }

  predicate HasValue(s: Snapshot) {
    s.value.Some?
  }

  function IsFiniteMember(now: int, w: Window, n: string): Snapshot -> bool {
    s => InWindow(s, now, w) && GroupKey(s) == n && s.value.Some?
  }

  /** How many in-window snapshots with key `n` have a finite value. */
  function FiniteCount(snaps: seq<Snapshot>, now: int, w: Window, n: string): nat {
    |Filter(snaps, IsFiniteMember(now, w, n))|
  }

  lemma {:induction false} SamplesCount(ms: seq<Snapshot>)
    ensures |Samples(ms)| == |Filter(ms, HasValue)|
  {
    if |ms| > 0 {
      SamplesCount(ms[1..]);
    }
  }

  /** The samples are the snapshots with a finite value, each as `(t, v)`;
      being a filter-map, they keep the input order. */
  lemma {:induction false} SamplesMembers(ms: seq<Snapshot>)
    ensures forall i :: 0 <= i < |ms| && ms[i].value.Some? ==> Sample(ms[i].t, ms[i].value.value) in Samples(ms)
    ensures forall x :: x in Samples(ms) ==>
              exists i :: 0 <= i < |ms| && ms[i].t == x.t && ms[i].value == Some(x.v)
  {
    forall i | 0 <= i < |ms| && ms[i].value.Some?
      ensures Sample(ms[i].t, ms[i].value.value) in Samples(ms)
    {
      FilterMapTo(ms, AsSample, i);
    }
    forall x | x in Samples(ms)
      ensures exists i :: 0 <= i < |ms| && ms[i].t == x.t && ms[i].value == Some(x.v)
    {
      var k :| 0 <= k < |Samples(ms)| && Samples(ms)[k] == x;
      FilterMapFrom(ms, AsSample, k);
    }
  }

  lemma MembersFiniteCount(snaps: seq<Snapshot>, now: int, w: Window, n: string)
    ensures |Samples(Members(snaps, now, w, n))| == FiniteCount(snaps, now, w, n)
  {
    SamplesCount(Members(snaps, now, w, n));
    FilterFilter(snaps, IsMember(now, w, n), HasValue, IsFiniteMember(now, w, n));
  }

  lemma SummariesFromGroups(gs: seq<Group>, i: nat)
    requires i < |Summaries(gs)|
    ensures exists j :: 0 <= j < |gs| && Summarize(gs[j]) == Some(Summaries(gs)[i])
  {
    FilterMapFrom(gs, Summarize, i);
  }

  lemma GroupsToSummaries(gs: seq<Group>, j: nat)
    requires j < |gs| && Summarize(gs[j]).Some?
    ensures Summarize(gs[j]).value in Summaries(gs)
  {
    FilterMapTo(gs, Summarize, j);
  }

  lemma SummaryNameIsKey(gs: seq<Group>, i: nat)
    requires i < |Summaries(gs)|
    ensures exists j :: 0 <= j < |gs| && gs[j].key == Summaries(gs)[i].name
  {
    SummariesFromGroups(gs, i);
  }

  /** No two rows share a model name. */
  predicate NamesDistinct(rs: seq<Row>) {
    forall i, j :: 0 <= i < j < |rs| ==> rs[i].name != rs[j].name
  }

  /** Distinct group keys give distinct row names. */
  lemma SummariesNamesDistinct(gs: seq<Group>)
    requires forall i, j :: 0 <= i < j < |gs| ==> gs[i].key != gs[j].key
    ensures NamesDistinct(Summaries(gs))
  {
    var keyOf := (g: Group) => g.key;
    var nameOf := (r: Row) => r.name;
    assert KeysDistinct(gs, keyOf);
    FilterMapKeysDistinct(gs, Summarize, keyOf, nameOf);
    var rs := Summaries(gs);
    assert KeysDistinct(rs, nameOf);
    forall i, j | 0 <= i < j < |rs|
      ensures rs[i].name != rs[j].name
    {
      assert nameOf(rs[i]) != nameOf(rs[j]);
    }
  }

  lemma GroupKeysDistinct(snaps: seq<Snapshot>, now: int, w: Window)
    ensures var gs := GroupByModel(snaps, now, w);
      && |gs| == |ModelKeys(snaps, now, w)|
      && forall i, j :: 0 <= i < j < |gs| ==> gs[i].key != gs[j].key
  {
    GroupByModelGroups(snaps, now, w);
  }

  /** Every summary comes from the group of its own name. */
  lemma SummaryOfMembers(snaps: seq<Snapshot>, now: int, w: Window, r: Row)
    requires r in Summaries(GroupByModel(snaps, now, w))
    ensures Summarize(Group(r.name, Members(snaps, now, w, r.name))) == Some(r)
  {
    var gs := GroupByModel(snaps, now, w);
    var m :| 0 <= m < |Summaries(gs)| && Summaries(gs)[m] == r;
    SummariesFromGroups(gs, m);
    var j :| 0 <= j < |gs| && Summarize(gs[j]) == Some(r);
    GroupByModelGroups(snaps, now, w);
  }

  /** A key with enough finite values has a summary. */
  lemma MembersSummarized(snaps: seq<Snapshot>, now: int, w: Window, n: string)
    requires FiniteCount(snaps, now, w, n) >= 2
    ensures Summarize(Group(n, Members(snaps, now, w, n))).Some?
    ensures Summarize(Group(n, Members(snaps, now, w, n))).value in Summaries(GroupByModel(snaps, now, w))
  {
    var gs := GroupByModel(snaps, now, w);
    var keys := ModelKeys(snaps, now, w);
    MembersFiniteCount(snaps, now, w, n);
    if n !in keys {
      MembersOfUnseenKey(snaps, now, w, n);
      assert false;
    }
    GroupByModelGroups(snaps, now, w);
    var j := FirstIndex(keys, n);
    assert gs[j] == Group(n, Members(snaps, now, w, n));
    GroupsToSummaries(gs, j);
  }

  /** A model has a row iff it has at least two finite in-window values. */
  lemma LeaderboardRowIff(snaps: seq<Snapshot>, now: int, w: Window, k: SortKey, n: string)
    ensures (exists i :: 0 <= i < |LeaderboardRows(Some(snaps), now, w, k)|
                         && LeaderboardRows(Some(snaps), now, w, k)[i].name == n)
        <==> FiniteCount(snaps, now, w, n) >= 2
  {
    var summaries := Summaries(GroupByModel(snaps, now, w));
    var rows := LeaderboardRows(Some(snaps), now, w, k);
    assert multiset(rows) == multiset(summaries);
    if exists i :: 0 <= i < |rows| && rows[i].name == n {
      var i :| 0 <= i < |rows| && rows[i].name == n;
      assert rows[i] in multiset(summaries);
      SummaryOfMembers(snaps, now, w, rows[i]);
      MembersFiniteCount(snaps, now, w, n);
    }
    if FiniteCount(snaps, now, w, n) >= 2 {
      MembersSummarized(snaps, now, w, n);
      var r := Summarize(Group(n, Members(snaps, now, w, n))).value;
      assert r in multiset(rows);
      var i :| 0 <= i < |rows| && rows[i] == r;
    }
  }

  lemma RankingKeepsNamesDistinct(rs: seq<Row>, k: SortKey)
    requires NamesDistinct(rs)
    ensures NamesDistinct(Sort(rs, RankOrder(k)))
  {
    var rows := Sort(rs, RankOrder(k));
    forall i, j | 0 <= i < j < |rows|
      ensures rows[i].name != rows[j].name
    {
      if rows[i].name == rows[j].name {
        var sameName := (r: Row) => r.name == rows[i].name;
        FilterKeepsTwo(rows, sameName, i, j);
        SortKeepsCount(rs, RankOrder(k), sameName);
        FilterKeepsAtMostOne(rs, sameName);
        assert false;
      }
    }
  }

  /** No model appears twice, and there are at most as many rows as distinct
      in-window keys. */
  lemma LeaderboardNamesUnique(snaps: seq<Snapshot>, now: int, w: Window, k: SortKey)
    ensures var rows := LeaderboardRows(Some(snaps), now, w, k);
      && NamesDistinct(rows)
      && |rows| <= |ModelKeys(snaps, now, w)|
  {
    var gs := GroupByModel(snaps, now, w);
    GroupKeysDistinct(snaps, now, w);
    SummariesNamesDistinct(gs);
    RankingKeepsNamesDistinct(Summaries(gs), k);
  }

  // ------------------------------------------------------------ row figures

  /** The earliest time among the samples. */
  function MinTime(ss: seq<Sample>): (m: int)
    requires |ss| > 0
    ensures exists i :: 0 <= i < |ss| && ss[i].t == m
    ensures forall i :: 0 <= i < |ss| ==> m <= ss[i].t
  {
    if |ss| == 1 then ss[0].t
    else
      var m := MinTime(ss[1..]);
      assert forall i :: 1 <= i < |ss| ==> ss[i] == ss[1..][i - 1];
      if ss[0].t < m then ss[0].t else m
  }

  /** The latest time among the samples. */
  function MaxTime(ss: seq<Sample>): (m: int)
    requires |ss| > 0
    ensures exists i :: 0 <= i < |ss| && ss[i].t == m
    ensures forall i :: 0 <= i < |ss| ==> ss[i].t <= m
  {
    if |ss| == 1 then ss[0].t
    else
      var m := MaxTime(ss[1..]);
      assert forall i :: 1 <= i < |ss| ==> ss[i] == ss[1..][i - 1];
      if ss[0].t > m then ss[0].t else m
  }

  function AtTime(t: int): Sample -> bool {
    (s: Sample) => s.t == t
  }

  /** A summarised model starts at the value of its earliest sample and ends
      at the value of its latest one; among samples sharing the earliest
      time the first in input order counts, among those sharing the latest
      time the last in input order. */
  lemma RowFigures(g: Group)
    requires |Samples(g.members)| >= 2
    ensures var ss := Samples(g.members);
      && Summarize(g).Some?
      && Summarize(g).value.start == Filter(ss, AtTime(MinTime(ss)))[0].v
      && Summarize(g).value.end == Last(Filter(ss, AtTime(MaxTime(ss)))).v
  {
    var ss := Samples(g.members);
    var ts := Sort(ss, Earlier);
    assert Summarize(g).value.start == ts[0].v && Summarize(g).value.end == Last(ts).v;
    EarlierIsStrictWeakOrder();
    SortFirst(ss, Earlier, AtTime(MinTime(ss)));
    SortLast(ss, Earlier, AtTime(MaxTime(ss)));
  }

  ghost predicate InTimeOrder(ss: seq<Sample>) {
    forall i, j :: 0 <= i < j < |ss| ==> ss[i].t <= ss[j].t
  }

  /** For samples already in time order the row's figures are read straight
      off the input: first and last value, and the drawdown of the values in
      input order. */
  lemma RowOfOrderedSamples(g: Group)
    requires |Samples(g.members)| >= 2 && InTimeOrder(Samples(g.members))
    ensures var ss := Samples(g.members);
      && Summarize(g).Some?
      && Summarize(g).value.start == ss[0].v
      && Summarize(g).value.end == Last(ss).v
      && Summarize(g).value.drawdown == OrUndefined(MaxDrawdown(Values(ss)))
  {
    SortOfSorted(Samples(g.members), Earlier);
  }

  /** Whatever order the snapshots arrive in, a row's drawdown is that of its
      values sorted by time: non-zero when present, and for positive values a
      fraction below one that is absent exactly when the values never fall. */
  lemma RowDrawdown(g: Group)
    requires Summarize(g).Some?
    ensures var ts := Sort(Samples(g.members), Earlier);
            var d := Summarize(g).value.drawdown;
      && InTimeOrder(ts)
      && multiset(ts) == multiset(Samples(g.members))
      && d == OrUndefined(MaxDrawdown(Values(ts)))
      && (d.Some? ==> d.value > 0.0)
      && (AllPositive(Values(ts)) ==> (d.Some? ==> d.value < 1.0) && (d.None? <==> NonDecreasing(Values(ts))))
  {
    var ts := Sort(Samples(g.members), Earlier);
    EarlierIsStrictWeakOrder();
    SortIsSorted(Samples(g.members), Earlier);
    if AllPositive(Values(ts)) {
      MaxDrawdownBelowOne(Values(ts));
      MaxDrawdownZeroIffNonDecreasing(Values(ts));
    }
  }

  /** A positive start gives a percentage PnL whose sign is the sign of the
      change from start to end. */
  lemma PnlPctSign(g: Group)
    requires Summarize(g).Some? && Summarize(g).value.start > 0.0
    ensures var r := Summarize(g).value;
      && r.pnlPct.Some?
      && (r.pnlPct.value > 0.0 <==> r.end > r.start)
      && (r.pnlPct.value == 0.0 <==> r.end == r.start)
  {
    var r := Summarize(g).value;
    ProductSign(r.pnlPct.value, r.start);
  }

  // ------------------------------------------------------ old snapshots

  lemma RecentOfRecent(snaps: seq<Snapshot>, now: int, w: Window, k: string)
    ensures Recent(Recent(snaps, now, w), now, w) == Recent(snaps, now, w)
    ensures Members(Recent(snaps, now, w), now, w, k) == Members(snaps, now, w, k)
  {
    FilterFilter(snaps, IsRecent(now, w), IsRecent(now, w), IsRecent(now, w));
    FilterFilter(snaps, IsRecent(now, w), IsMember(now, w, k), IsMember(now, w, k));
  }

  /** The grouping is determined by the in-window keys and their members. */
  lemma GroupsOfUnique(a: seq<Snapshot>, b: seq<Snapshot>, now: int, w: Window, ga: seq<Group>, gb: seq<Group>)
    requires GroupsOf(a, now, w, ga) && GroupsOf(b, now, w, gb)
    requires ModelKeys(a, now, w) == ModelKeys(b, now, w)
    requires forall k :: Members(a, now, w, k) == Members(b, now, w, k)
    ensures ga == gb
  {
  }

  /** Dropping the snapshots older than the window beforehand changes
      nothing: the rows depend only on in-window snapshots. */
  lemma OldSnapshotsIgnored(snaps: seq<Snapshot>, now: int, w: Window, k: SortKey)
    ensures LeaderboardRows(Some(snaps), now, w, k) == LeaderboardRows(Some(Recent(snaps, now, w)), now, w, k)
  {
    var rs := Recent(snaps, now, w);
    RecentOfRecent(snaps, now, w, "");
    forall n
      ensures Members(rs, now, w, n) == Members(snaps, now, w, n)
    {
      RecentOfRecent(snaps, now, w, n);
    }
    GroupByModelGroups(snaps, now, w);
    GroupByModelGroups(rs, now, w);
    GroupsOfUnique(rs, snaps, now, w, GroupByModel(rs, now, w), GroupByModel(snaps, now, w));
  }
}
