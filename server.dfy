/**
 * The read path of the results endpoint: parameter defaulting, the bucket-width table,
 * the aggregation pipeline the endpoint sends to the database, and the final grouping of
 * its rows by bucket time. The database collection is an in-memory sequence of samples.
 */
module Server {
  import opened Wrappers
  import Ordering
  import Seqs
  import Text

  /**
   * One probe result as the checker writes it. `latency` is None when the probe reported
   * "unknown"; `createdAt` is the insertion time in milliseconds since the epoch.
   */
  datatype Sample = Sample(
    ok: bool,
    targetAddr: string,
    networkType: string,
    packetLoss: real,
    latency: Option<real>,
    createdAt: int)

  /** The `start` and `end` query parameters, unix seconds, each possibly missing. */
  datatype Query = Query(start: Option<int>, end: Option<int>)

  const SecondsPerHour: int := 3600
  const SecondsPerDay: int := 86400

  /** JavaScript truthiness of an optional number: missing and 0 are falsy. */
  predicate Truthy(p: Option<int>) {
    p.Some? && p.value != 0
  }

  /** A falsy `end` becomes `now`; a falsy `start` becomes three hours before the (defaulted) end. */
  function DefaultRange(q: Query, now: int): (range: (int, int))
    ensures Truthy(q.end) ==> range.1 == q.end.value
    ensures !Truthy(q.end) ==> range.1 == now
    ensures Truthy(q.start) ==> range.0 == q.start.value
    ensures !Truthy(q.start) ==> range.0 <= range.1 && Span(range.0, range.1) == 3 * SecondsPerHour
  {
    var end := if Truthy(q.end) then q.end.value else now;
    var start := if Truthy(q.start) then q.start.value else end - 3 * SecondsPerHour;
    (start, end)
  }

  // ---------------------------------------------------------------- bucket width

  datatype Unit = Second | Minute | Hour | Day | Month | Year

  /** The `unit` and `binSize` handed to `$dateTrunc`. */
  datatype DateTrunc = DateTrunc(unit: Unit, binSize: nat)

  /** `|end - start|` in seconds. */
  function Span(start: int, end: int): nat {
    if start <= end then end - start else start - end
  }

  function AbsReal(x: real): real {
    if x < 0.0 then -x else x
  }

  /**
   * The first-match tier table. With whole-second inputs the fractional hour and day
   * differences compare exactly as whole seconds. `months` is the calendar's fractional
   * month difference from `end` to `start`; the calendar's year difference is it divided by 12.
   */
  function SelectTrunc(start: int, end: int, months: real): (dt: DateTrunc)
    ensures dt.binSize >= 1
  {
    var span := Span(start, end);
    if span <= 1 * SecondsPerHour then DateTrunc(Second, 2)
    else if span <= 3 * SecondsPerHour then DateTrunc(Second, 20)
    else if span <= 6 * SecondsPerHour then DateTrunc(Minute, 2)
    else if span <= 1 * SecondsPerDay then DateTrunc(Minute, 20)
    else if span <= 3 * SecondsPerDay then DateTrunc(Hour, 2)
    else if span <= 6 * SecondsPerDay then DateTrunc(Hour, 6)
    else if AbsReal(months) <= 1.0 then DateTrunc(Day, 1)
    else if AbsReal(months / 12.0) <= 3.0 then DateTrunc(Month, 1)
    else if AbsReal(months / 12.0) <= 6.0 then DateTrunc(Month, 2)
    else DateTrunc(Year, 1)
  }

  /**
   * Swapping the ends selects the same width as long as the month difference keeps its
   * magnitude: only the span and the magnitude of the month difference are read.
   */
  lemma SelectTruncSymmetric(start: int, end: int, months: real, months': real)
    requires AbsReal(months) == AbsReal(months')
    ensures SelectTrunc(start, end, months) == SelectTrunc(end, start, months')
  {
  }

  /** The six fixed tiers, each with its inclusive upper bound, in both directions. */
  lemma FixedTiers(start: int, end: int, months: real)
    ensures SelectTrunc(start, end, months) == DateTrunc(Second, 2) <==> Span(start, end) <= 3600
    ensures SelectTrunc(start, end, months) == DateTrunc(Second, 20) <==> 3600 < Span(start, end) <= 10800
    ensures SelectTrunc(start, end, months) == DateTrunc(Minute, 2) <==> 10800 < Span(start, end) <= 21600
    ensures SelectTrunc(start, end, months) == DateTrunc(Minute, 20) <==> 21600 < Span(start, end) <= 86400
    ensures SelectTrunc(start, end, months) == DateTrunc(Hour, 2) <==> 86400 < Span(start, end) <= 259200
    ensures SelectTrunc(start, end, months) == DateTrunc(Hour, 6) <==> 259200 < Span(start, end) <= 518400
    ensures Span(start, end) > 518400 && AbsReal(months) > 72.0 ==> SelectTrunc(start, end, months) == DateTrunc(Year, 1)
  {
  }

  /** Beyond six days the calendar tiers decide, on the month difference alone. */
  lemma CalendarTiers(start: int, end: int, months: real)
    requires Span(start, end) > 6 * SecondsPerDay
    ensures SelectTrunc(start, end, months) == DateTrunc(Day, 1) <==> AbsReal(months) <= 1.0
    ensures SelectTrunc(start, end, months) == DateTrunc(Month, 1) <==> 1.0 < AbsReal(months) && AbsReal(months / 12.0) <= 3.0
    ensures SelectTrunc(start, end, months) == DateTrunc(Month, 2) <==> 3.0 < AbsReal(months / 12.0) <= 6.0
    ensures SelectTrunc(start, end, months) == DateTrunc(Year, 1) <==> 6.0 < AbsReal(months / 12.0)
  {
  }

  /** A request without a usable `start` spans exactly three hours, the last 20-second tier. */
  lemma NoStartSelectsTwentySecondBins(q: Query, now: int, months: real)
    requires !Truthy(q.start)
    ensures var (start, end) := DefaultRange(q, now);
      SelectTrunc(start, end, months) == DateTrunc(Second, 20)
  {
  }

  function UnitRank(u: Unit): nat {
    match u
    case Second => 0
    case Minute => 1
    case Hour => 2
    case Day => 3
    case Month => 4
    case Year => 5
  }

  /** `a` is the same as or finer than `b`: a smaller unit, or the same unit with no larger bins. */
  predicate NoCoarser(a: DateTrunc, b: DateTrunc) {
    UnitRank(a.unit) < UnitRank(b.unit) || (a.unit == b.unit && a.binSize <= b.binSize)
  }

  /** A wider span (and calendar difference) never selects finer buckets. */
  lemma SelectTruncMonotone(s1: int, e1: int, m1: real, s2: int, e2: int, m2: real)
    requires Span(s1, e1) <= Span(s2, e2) && AbsReal(m1) <= AbsReal(m2)
    ensures NoCoarser(SelectTrunc(s1, e1, m1), SelectTrunc(s2, e2, m2))
  {
  }

  // ---------------------------------------------------------------- $dateTrunc

  /** Units of fixed length in UTC; months and years depend on the calendar. */
  predicate FixedLength(u: Unit) {
    u != Month && u != Year
  }

  function UnitSeconds(u: Unit): nat
    requires FixedLength(u)
  {
    match u
    case Second => 1
    case Minute => 60
    case Hour => 3600
    case Day => 86400
  }

  function WidthMs(dt: DateTrunc): nat
    requires FixedLength(dt.unit)
  {
    1000 * (dt.binSize * UnitSeconds(dt.unit))
  }

  /** 2000-01-01T00:00:00Z, the instant `$dateTrunc` counts bins from, in milliseconds. */
  const ReferenceMs: int := 946684800000

  /** `k * w` with `k = x / w` is the multiple of `w` at most one `w` below `x`. */
  lemma FloorMultiple(x: int, w: int)
    requires w > 0
    ensures (x / w) * w <= x < (x / w) * w + w
  {
  }

  /** The floor multiple of a whole number of seconds, `w = 1000 * s`, below `x`. */
  lemma AlignedFloor(x: int, s: int)
    requires s >= 1
    ensures var w := 1000 * s; var k := x / w;
      k * w <= x < k * w + w && (k * w) % w == 0 && (k * w) % 1000 == 0
  {
    var w := 1000 * s;
    var k := x / w;
    FloorMultiple(x, w);
    DivUnique(k * w, w, k);
    assert k * w == 1000 * (k * s);
  }

  /** `$dateTrunc` for a fixed-length unit: the start of the bin holding `t`. */
  function FixedTruncate(dt: DateTrunc, t: int): (b: int)
    requires FixedLength(dt.unit) && dt.binSize >= 1
    ensures b <= t < b + WidthMs(dt)
    ensures (b - ReferenceMs) % WidthMs(dt) == 0
    ensures b % 1000 == 0
  {
    var s := dt.binSize * UnitSeconds(dt.unit);
    AlignedFloor(t - ReferenceMs, s);
    ReferenceMs + ((t - ReferenceMs) / (1000 * s)) * (1000 * s)
  }

  /** Multiples of a positive `w` are at least `w` apart. */
  lemma MultiplesApart(q: int, p: int, w: int)
    requires w > 0
    ensures q > p ==> q * w >= p * w + w
  {
    var e := q - p - 1;
    if e >= 0 {
      assert e * w >= 0;
      assert q * w == p * w + w + e * w;
    }
  }

  /** If `p * w <= x < p * w + w` then `p` is `x / w`. */
  lemma DivUnique(x: int, w: int, p: int)
    requires w > 0 && p * w <= x < p * w + w
    ensures x / w == p
  {
    FloorMultiple(x, w);
    MultiplesApart(x / w, p, w);
    MultiplesApart(p, x / w, w);
  }

  /** The bin start is the only reference-aligned instant at most one width below `t`. */
  lemma FixedTruncateUnique(dt: DateTrunc, t: int, p: int)
    requires FixedLength(dt.unit) && dt.binSize >= 1
    requires var b := ReferenceMs + p * WidthMs(dt); b <= t < b + WidthMs(dt)
    ensures FixedTruncate(dt, t) == ReferenceMs + p * WidthMs(dt)
  {
    DivUnique(t - ReferenceMs, WidthMs(dt), p);
  }

  /** The widths the table chooses for a fixed unit: 2 s, 20 s, 2 min, 20 min, 2 h, 6 h and one day. */
  lemma TableWidths(start: int, end: int, months: real)
    ensures var dt := SelectTrunc(start, end, months);
      FixedLength(dt.unit) ==> var w := WidthMs(dt);
        w == 2000 || w == 20000 || w == 120000 || w == 1200000 || w == 7200000 || w == 21600000 || w == 86400000
  {
  }

  /** Every width the table can choose for a fixed unit divides a day. */
  lemma TableWidthsDivideDay(start: int, end: int, months: real)
    ensures var dt := SelectTrunc(start, end, months);
      FixedLength(dt.unit) ==> (SecondsPerDay * 1000) % WidthMs(dt) == 0
  {
    TableWidths(start, end, months);
  }

  /** A sum of two multiples of `w` is a multiple of `w`. */
  lemma MultipleSum(x: int, y: int, w: int)
    requires w > 0 && x % w == 0 && y % w == 0
    ensures (x + y) % w == 0
  {
    var p, q := x / w, y / w;
    FloorMultiple(x, w);
    FloorMultiple(y, w);
    assert x + y == (p + q) * w;
    DivUnique(x + y, w, p + q);
  }

  /** For those widths the bins are aligned to the unix epoch as well. */
  lemma TableBinsEpochAligned(start: int, end: int, months: real, t: int)
    requires FixedLength(SelectTrunc(start, end, months).unit)
    ensures var dt := SelectTrunc(start, end, months);
      FixedTruncate(dt, t) % WidthMs(dt) == 0
  {
    var dt := SelectTrunc(start, end, months);
    var w := WidthMs(dt);
    TableWidths(start, end, months);
    assert ReferenceMs % w == 0;
    var b := FixedTruncate(dt, t);
    MultipleSum(b - ReferenceMs, ReferenceMs, w);
  }

  /** Among the fixed tiers a wider span never selects a narrower bucket (2 s, 20 s, 2 min, 20 min, 2 h, 6 h). */
  lemma FixedWidthMonotone(s1: int, e1: int, m1: real, s2: int, e2: int, m2: real)
    requires Span(s1, e1) <= Span(s2, e2) <= 6 * SecondsPerDay
    ensures FixedLength(SelectTrunc(s1, e1, m1).unit) && FixedLength(SelectTrunc(s2, e2, m2).unit)
    ensures WidthMs(SelectTrunc(s1, e1, m1)) <= WidthMs(SelectTrunc(s2, e2, m2))
  {
  }

  /**
   * The bucket start used for a sample time: `$dateTrunc` for fixed units, the calendar's
   * truncation (a parameter) for months and years.
   */
  function Bucket(dt: DateTrunc, calendarTrunc: (DateTrunc, int) -> int, t: int): int
    requires dt.binSize >= 1
  {
    if FixedLength(dt.unit) then FixedTruncate(dt, t) else calendarTrunc(dt, t)
  }

  // ---------------------------------------------------------------- pipeline

  /** `_id` of a `$group` output: the truncated date and the network type. */
  datatype GroupKey = GroupKey(truncatedDate: int, networkType: string)

  /** One `$group` output document. */
  datatype Group = Group(id: GroupKey, packetLoss: real, latency: Option<real>)

  /** One `$project` output document, as sent to the client. */
  datatype ResultRow = ResultRow(createdAt: int, packetLoss: real, latency: Option<real>, networkType: string)

  predicate InRange(s: Sample, start: int, end: int) {
    start * 1000 <= s.createdAt <= end * 1000
  }

  /** `$match`: the samples whose time lies in [start, end], both ends included. */
  function Match(samples: seq<Sample>, start: int, end: int): (matched: seq<Sample>)
    ensures forall s :: s in matched <==> s in samples && start * 1000 <= s.createdAt <= end * 1000
    ensures forall s :: multiset(matched)[s] == if InRange(s, start, end) then multiset(samples)[s] else 0
  {
    Seqs.FilterMultiset(samples, s => InRange(s, start, end));
    Seqs.Filter(samples, s => InRange(s, start, end))
  }

  /** `$sort` on `_id`: by truncated date, then by network type. */
  predicate KeyBefore(a: GroupKey, b: GroupKey) {
    a.truncatedDate < b.truncatedDate
    || (a.truncatedDate == b.truncatedDate && Text.Before(a.networkType, b.networkType))
  }

  lemma KeyBeforeIsStrictTotal()
    ensures Ordering.StrictTotal(KeyBefore)
  {
    Text.BeforeIsStrictTotal();
    forall a, b | a != b ensures KeyBefore(a, b) || KeyBefore(b, a) {
      if a.truncatedDate == b.truncatedDate {
        assert a.networkType != b.networkType;
      }
    }
  }

  function KeyOf(s: Sample, bucketOf: int -> int): GroupKey {
    GroupKey(bucketOf(s.createdAt), s.networkType)
  }

  /** The samples that fall in group `k`. */
  function Members(matched: seq<Sample>, k: GroupKey, bucketOf: int -> int): seq<Sample> {
    Seqs.Filter(matched, s => KeyOf(s, bucketOf) == k)
  }

  /** The group ids present in `matched`, each once, in `$sort` order. */
  function GroupIds(matched: seq<Sample>, bucketOf: int -> int): (ids: seq<GroupKey>)
    ensures Ordering.Ascending(ids, KeyBefore)
    ensures forall k :: k in ids <==> exists s :: s in matched && KeyOf(s, bucketOf) == k
  {
    KeyBeforeIsStrictTotal();
    var keys := seq(|matched|, i requires 0 <= i < |matched| => KeyOf(matched[i], bucketOf));
    assert forall k :: k in keys <==> exists s :: s in matched && KeyOf(s, bucketOf) == k by {
      forall k ensures k in keys <==> exists s :: s in matched && KeyOf(s, bucketOf) == k {
        if exists s :: s in matched && KeyOf(s, bucketOf) == k {
          var s :| s in matched && KeyOf(s, bucketOf) == k;
          var i :| 0 <= i < |matched| && matched[i] == s;
          assert keys[i] == k;
        }
      }
    }
    Ordering.SortUnique(keys, KeyBefore)
  }

  lemma MembersNonEmpty(matched: seq<Sample>, k: GroupKey, bucketOf: int -> int)
    requires k in GroupIds(matched, bucketOf)
    ensures |Members(matched, k, bucketOf)| > 0
  {
    var s :| s in matched && KeyOf(s, bucketOf) == k;
    assert s in Members(matched, k, bucketOf);
  }

  function PacketLoss(s: Sample): real {
    s.packetLoss
  }

  predicate HasLatency(s: Sample) {
    s.latency.Some?
  }

  function LatencyValue(s: Sample): real {
    if s.latency.Some? then s.latency.value else 0.0
  }

  /** The members with a known latency: the values `$avg` takes into account. */
  function Known(members: seq<Sample>): seq<Sample> {
    Seqs.Filter(members, HasLatency)
  }

  /**
   * `g` holds the statistics of `members`: `packetLoss` is the mean over all of them, and
   * `latency` the mean over those with a known latency, null exactly when there is none.
   */
  predicate Summarises(g: Group, members: seq<Sample>) {
    |members| > 0 && LossSummarises(g.packetLoss, members) && LatencySummarises(g.latency, members)
  }

  /** `m` is the mean of `count` values that sum to `total`. */
  predicate IsMean(m: real, total: real, count: nat) {
    count > 0 && m * count as real == total
  }

  /** `m` is the mean packet loss of `members`. */
  predicate LossSummarises(m: real, members: seq<Sample>) {
    IsMean(m, Seqs.Total(members, PacketLoss), |members|)
  }

  /** `l` is the mean of the known latencies of `members`, null exactly when none is known. */
  predicate LatencySummarises(l: Option<real>, members: seq<Sample>) {
    && (l.None? <==> forall s :: s in members ==> s.latency.None?)
    && (l.Some? ==> IsMean(l.value, Seqs.Total(Known(members), LatencyValue), |Known(members)|))
  }

  /** The arithmetic mean of `count` values summing to `total`. */
  function Mean(total: real, count: nat): (m: real)
    requires count > 0
    ensures IsMean(m, total, count)
  {
    total / count as real
  }

  /** No member has a known latency exactly when the known members are none. */
  lemma KnownEmptyIff(members: seq<Sample>)
    ensures |Known(members)| == 0 <==> forall s :: s in members ==> s.latency.None?
  {
    var known := Known(members);
    if |known| > 0 {
      assert known[0] in known;
    }
  }

  /** `$avg` of `packetLoss`: the mean over all members. */
  function MeanLoss(members: seq<Sample>): (m: real)
    requires |members| > 0
    ensures LossSummarises(m, members)
  {
    Mean(Seqs.Total(members, PacketLoss), |members|)
  }

  /** `$avg` of `latency`: the mean over the members with a known latency, null when there is none. */
  function MeanLatency(members: seq<Sample>): (l: Option<real>)
    ensures LatencySummarises(l, members)
  {
    var known := Known(members);
    KnownEmptyIff(members);
    if |known| == 0 then None
    else
      Some(Mean(Seqs.Total(known, LatencyValue), |known|))
  }

  /** The two `$avg` accumulators of one group. */
  function Summarise(id: GroupKey, members: seq<Sample>): (g: Group)
    requires |members| > 0
    ensures g.id == id && Summarises(g, members)
  {
    Group(id, MeanLoss(members), MeanLatency(members))
  }

  /** A mean of packet losses that all lie in [lo, hi] lies in [lo, hi] as well. */
  lemma PacketLossBounds(g: Group, members: seq<Sample>, lo: real, hi: real)
    requires Summarises(g, members)
    requires forall i :: 0 <= i < |members| ==> lo <= members[i].packetLoss <= hi
    ensures lo <= g.packetLoss <= hi
  {
    forall i | 0 <= i < |members| ensures lo <= PacketLoss(members[i]) <= hi {
    }
    Seqs.TotalBounds(members, PacketLoss, lo, hi);
    MeanBetween(g.packetLoss, Seqs.Total(members, PacketLoss), |members|, lo, hi);
  }

  /** A mean of values bounded by `lo` and `hi` is bounded by them too. */
  lemma MeanBetween(m: real, total: real, count: nat, lo: real, hi: real)
    requires IsMean(m, total, count) && lo * count as real <= total <= hi * count as real
    ensures lo <= m <= hi
  {
    var n := count as real;
    assert (m - lo) * n >= 0.0;
    assert (hi - m) * n >= 0.0;
    ScaledBound(lo, m, n);
    ScaledBound(m, hi, n);
  }

  /** Dividing both sides of `a * n <= b * n` by a positive `n`. */
  lemma ScaledBound(a: real, b: real, n: real)
    requires n > 0.0 && a * n <= b * n
    ensures a <= b
  {
    assert (a - b) * n <= 0.0;
  }

  /** Three samples with losses 0, 10, 20 and latencies 10, unknown, 30 average to 10 and 20. */
  lemma SummariseExample(id: GroupKey)
    ensures var members := [
        Sample(true, "a", "wifi", 0.0, Some(10.0), 0),
        Sample(true, "a", "wifi", 10.0, None, 1),
        Sample(true, "a", "wifi", 20.0, Some(30.0), 2)];
      Summarise(id, members) == Group(id, 10.0, Some(20.0))
  {
    var x := Sample(true, "a", "wifi", 0.0, Some(10.0), 0);
    var y := Sample(true, "a", "wifi", 10.0, None, 1);
    var z := Sample(true, "a", "wifi", 20.0, Some(30.0), 2);
    var members := [x, y, z];
    assert members[1..] == [y, z] && [y, z][1..] == [z] && [z][1..] == [];
    assert Seqs.Total([z], PacketLoss) == 20.0;
    assert Seqs.Total([y, z], PacketLoss) == 30.0;
    assert Seqs.Total(members, PacketLoss) == 30.0;
    assert members[..2] == [x, y] && [x, y][..1] == [x] && [x][..0] == [];
    assert Known([x]) == [x];
    assert Known([x, y]) == [x];
    assert Known(members) == [x, z];
    assert [x, z][1..] == [z];
    assert Seqs.Total([z], LatencyValue) == 30.0;
    assert Seqs.Total([x, z], LatencyValue) == 40.0;
  }

  /**
   * `$group` followed by `$sort`: one group per id present among the matched samples,
   * in ascending id order (see `GroupIds`), each summarising exactly the samples of its id.
   */
  function GroupStage(matched: seq<Sample>, bucketOf: int -> int): (groups: seq<Group>)
    ensures |groups| == |GroupIds(matched, bucketOf)|
    ensures forall i :: 0 <= i < |groups| ==> groups[i].id == GroupIds(matched, bucketOf)[i]
    ensures forall i :: 0 <= i < |groups| ==> Summarises(groups[i], Members(matched, groups[i].id, bucketOf))
  {
    var ids := GroupIds(matched, bucketOf);
    seq(|ids|, i requires 0 <= i < |ids| =>
      MembersNonEmpty(matched, ids[i], bucketOf);
      Summarise(ids[i], Members(matched, ids[i], bucketOf)))
  }

  /** `$project`: `createdAt` is the truncated date in seconds. */
  function Project(g: Group): ResultRow {
    ResultRow(g.id.truncatedDate / 1000, g.packetLoss, g.latency, g.id.networkType)
  }

  /** The whole pipeline: `$match`, `$group`, `$sort`, `$project`. */
  function Aggregate(samples: seq<Sample>, start: int, end: int, bucketOf: int -> int): (rows: seq<ResultRow>)
    ensures var ids := GroupIds(Match(samples, start, end), bucketOf);
      && |rows| == |ids|
      && forall i :: 0 <= i < |rows| ==>
           && rows[i].createdAt == ids[i].truncatedDate / 1000
           && rows[i].networkType == ids[i].networkType
           && Summarises(Group(ids[i], rows[i].packetLoss, rows[i].latency), Members(Match(samples, start, end), ids[i], bucketOf))
  {
    var groups := GroupStage(Match(samples, start, end), bucketOf);
    seq(|groups|, i requires 0 <= i < |groups| => Project(groups[i]))
  }

  /** Rows come out in ascending time; with whole-second bucket starts, strictly by (time, network type). */
  lemma AggregateSorted(samples: seq<Sample>, start: int, end: int, bucketOf: int -> int, i: nat, j: nat)
    requires i < j < |Aggregate(samples, start, end, bucketOf)|
    ensures var rows := Aggregate(samples, start, end, bucketOf);
      rows[i].createdAt <= rows[j].createdAt
    ensures var rows := Aggregate(samples, start, end, bucketOf);
      (forall t :: bucketOf(t) % 1000 == 0) ==>
        rows[i].createdAt < rows[j].createdAt
        || (rows[i].createdAt == rows[j].createdAt && Text.Before(rows[i].networkType, rows[j].networkType))
  {
    var matched := Match(samples, start, end);
    var ids := GroupIds(matched, bucketOf);
    var a := ids[i].truncatedDate;
    var b := ids[j].truncatedDate;
    assert KeyBefore(ids[i], ids[j]);
    DivMonotone(a, b);
    if forall t :: bucketOf(t) % 1000 == 0 {
      IdWholeSeconds(matched, bucketOf, ids[i]);
      IdWholeSeconds(matched, bucketOf, ids[j]);
      if a < b {
        WholeSecondsDivide(a, b);
      }
    }
  }

  /** With whole-second bucket starts every group id is a whole second. */
  lemma IdWholeSeconds(matched: seq<Sample>, bucketOf: int -> int, k: GroupKey)
    requires k in GroupIds(matched, bucketOf)
    requires forall t :: bucketOf(t) % 1000 == 0
    ensures k.truncatedDate % 1000 == 0
  {
    var x :| x in matched && KeyOf(x, bucketOf) == k;
    assert bucketOf(x.createdAt) % 1000 == 0;
  }

  lemma DivMonotone(a: int, b: int)
    requires a <= b
    ensures a / 1000 <= b / 1000
  {
    FloorMultiple(a, 1000);
    FloorMultiple(b, 1000);
    MultiplesApart(a / 1000, b / 1000, 1000);
  }

  lemma WholeSecondsDivide(a: int, b: int)
    requires a < b && a % 1000 == 0 && b % 1000 == 0
    ensures a / 1000 < b / 1000
  {
    assert a == (a / 1000) * 1000 && b == (b / 1000) * 1000;
    MultiplesApart(a / 1000, b / 1000, 1000);
  }

  /** The statistics of a group do not depend on the order of its members. */
  lemma SummarisePermutation(id: GroupKey, a: seq<Sample>, b: seq<Sample>)
    requires |a| > 0 && multiset(a) == multiset(b)
    ensures |b| > 0 && Summarise(id, a) == Summarise(id, b)
  {
    assert |a| == |multiset(a)| == |multiset(b)| == |b|;
    Seqs.TotalPermutation(a, b, PacketLoss);
    Seqs.FilterPermutation(a, b, HasLatency);
    assert |Known(a)| == |multiset(Known(a))| == |multiset(Known(b))| == |Known(b)|;
    Seqs.TotalPermutation(Known(a), Known(b), LatencyValue);
  }

  /** The ids depend only on which samples are present. */
  lemma GroupIdsSameElements(a: seq<Sample>, b: seq<Sample>, bucketOf: int -> int)
    requires forall s :: s in a <==> s in b
    ensures GroupIds(a, bucketOf) == GroupIds(b, bucketOf)
  {
    KeyBeforeIsStrictTotal();
    Ordering.AscendingUnique(GroupIds(a, bucketOf), GroupIds(b, bucketOf), KeyBefore);
  }

  lemma MembersPermutation(a: seq<Sample>, b: seq<Sample>, k: GroupKey, bucketOf: int -> int)
    requires multiset(a) == multiset(b)
    ensures multiset(Members(a, k, bucketOf)) == multiset(Members(b, k, bucketOf))
  {
    Seqs.FilterMultiset(a, s => KeyOf(s, bucketOf) == k);
    Seqs.FilterMultiset(b, s => KeyOf(s, bucketOf) == k);
  }

  /** Grouping does not depend on the order of the matched samples. */
  lemma GroupStageOrderIndependent(a: seq<Sample>, b: seq<Sample>, bucketOf: int -> int)
    requires multiset(a) == multiset(b)
    ensures GroupStage(a, bucketOf) == GroupStage(b, bucketOf)
  {
    Seqs.MultisetMembers(a, b);
    GroupIdsSameElements(a, b, bucketOf);
    var ga := GroupStage(a, bucketOf);
    var gb := GroupStage(b, bucketOf);
    var ids := GroupIds(a, bucketOf);
    forall i | 0 <= i < |ids| ensures ga[i] == gb[i] {
      MembersNonEmpty(a, ids[i], bucketOf);
      MembersPermutation(a, b, ids[i], bucketOf);
      SummarisePermutation(ids[i], Members(a, ids[i], bucketOf), Members(b, ids[i], bucketOf));
    }
  }

  /** The result does not depend on the order in which the collection returns the samples. */
  lemma AggregateOrderIndependent(a: seq<Sample>, b: seq<Sample>, start: int, end: int, bucketOf: int -> int)
    requires multiset(a) == multiset(b)
    ensures Aggregate(a, start, end, bucketOf) == Aggregate(b, start, end, bucketOf)
  {
    var ma := Match(a, start, end);
    var mb := Match(b, start, end);
    assert multiset(ma) == multiset(mb);
    GroupStageOrderIndependent(ma, mb, bucketOf);
  }

  // ---------------------------------------------------------------- groupBy

  /** The property name `groupBy` files a row under: its `createdAt` as a decimal string. */
  function RowKey(r: ResultRow): string {
    Text.IntString(r.createdAt)
  }

  /** The rows filed under `key`, in their original order. */
  function WithKey(rows: seq<ResultRow>, key: string): seq<ResultRow> {
    Seqs.WithKey(rows, RowKey, key)
  }

  /**
   * `_.groupBy(rows, "createdAt")`: one non-empty bucket per distinct `createdAt`,
   * holding exactly the rows with that value in their original order.
   */
  function GroupBy(rows: seq<ResultRow>): (m: map<string, seq<ResultRow>>)
    ensures forall k :: k in m <==> |WithKey(rows, k)| > 0
    ensures forall k :: k in m ==> m[k] == WithKey(rows, k)
  {
    Seqs.GroupBy(rows, RowKey)
  }

  /** The buckets are exactly the `createdAt` values present, and none is empty. */
  lemma GroupByKeys(rows: seq<ResultRow>, key: string)
    ensures key in GroupBy(rows) <==> exists r :: r in rows && RowKey(r) == key
    ensures key in GroupBy(rows) ==> |GroupBy(rows)[key]| > 0
  {
    Seqs.WithKeyNonEmpty(rows, RowKey, key);
  }

  /** All rows in one bucket carry the same `createdAt`, the one the key spells. */
  lemma BucketSharesCreatedAt(rows: seq<ResultRow>, key: string, i: nat, j: nat)
    requires key in GroupBy(rows)
    requires i < |GroupBy(rows)[key]| && j < |GroupBy(rows)[key]|
    ensures GroupBy(rows)[key][i].createdAt == GroupBy(rows)[key][j].createdAt
  {
    var bucket := GroupBy(rows)[key];
    assert bucket == Seqs.WithKey(rows, RowKey, key);
    Seqs.WithKeyMember(rows, RowKey, key, bucket[i]);
    Seqs.WithKeyMember(rows, RowKey, key, bucket[j]);
    Text.IntStringInjective(bucket[i].createdAt, bucket[j].createdAt);
  }

  /** The endpoint: defaulting, width selection, aggregation and grouping. */
  function Get(q: Query, now: int, monthDiff: (int, int) -> real, calendarTrunc: (DateTrunc, int) -> int,
               samples: seq<Sample>): (buckets: map<string, seq<ResultRow>>)
    ensures forall k :: k in buckets ==> |buckets[k]| > 0
    ensures forall k, r :: k in buckets && r in buckets[k] ==> RowKey(r) == k
  {
    var (start, end) := DefaultRange(q, now);
    var dt := SelectTrunc(start, end, monthDiff(start, end));
    var rows := Aggregate(samples, start, end, t => Bucket(dt, calendarTrunc, t));
    forall k ensures k in GroupBy(rows) ==> |GroupBy(rows)[k]| > 0 {
      GroupByKeys(rows, k);
    }
    GroupBy(rows)
  }
}
