/**
 * What the dashboard's chart getters compute from the bucket map the results endpoint
 * returns: the buckets in sorted-key order, the series (network types in first-seen
 * order) and one data row per bucket.
 */
module Charts {
  import opened Wrappers
  import Ordering
  import Seqs
  import Text
  import Server

  /** One row of the response, as the server's `$project` stage produces it. */
  type Row = Server.ResultRow

  /** One property of the response object: a bucket key and the rows filed under it. */
  type Entry = (string, seq<Row>)

  function Keys(entries: seq<Entry>): (ks: seq<string>)
    ensures |ks| == |entries| && forall i :: 0 <= i < |ks| ==> ks[i] == entries[i].0
  {
    seq(|entries|, i requires 0 <= i < |entries| => entries[i].0)
  }

  /** The bucket map as a JavaScript object: its properties in order, no key twice. */
  type Results = r: seq<Entry> | Seqs.NoDup(Keys(r)) witness []

  /** The rows under `key`. */
  function Lookup(entries: seq<Entry>, key: string): (rows: seq<Row>)
    requires key in Keys(entries)
    ensures exists i :: 0 <= i < |entries| && entries[i] == (key, rows)
  {
    if entries[0].0 == key then entries[0].1
    else
      assert Keys(entries[1..]) == Keys(entries)[1..];
      var rows := Lookup(entries[1..], key);
      var i :| 0 <= i < |entries[1..]| && entries[1..][i] == (key, rows);
      assert entries[i + 1] == (key, rows);
      rows
  }

  /** In a map with unique keys each key finds its own rows. */
  lemma LookupEntry(results: Results, i: nat)
    requires i < |results|
    ensures results[i].0 in Keys(results) && Lookup(results, results[i].0) == results[i].1
  {
    var ks := Keys(results);
    assert ks[i] == results[i].0;
    var rows := Lookup(results, results[i].0);
    var j :| 0 <= j < |results| && results[j] == (results[i].0, rows);
    assert ks[j] == ks[i];
  }

  /** `Object.keys(results).sort()`: every key once, in ascending code-point order (see "String order" in README.md). */
  function SortedKeys(results: Results): (ks: seq<string>)
    ensures forall k :: k in ks <==> k in Keys(results)
    ensures |ks| == |results|
  {
    Text.BeforeIsStrictTotal();
    Ordering.SortUniqueLength(Keys(results), Text.Before);
    Ordering.SortUnique(Keys(results), Text.Before)
  }

  /** The keys come out in ascending string order, each once. */
  lemma SortedKeysAscending(results: Results)
    ensures Ordering.Ascending(SortedKeys(results), Text.Before)
    ensures Seqs.NoDup(SortedKeys(results))
  {
    var ks := SortedKeys(results);
    Text.BeforeIsStrictTotal();
    forall i, j | 0 <= i < j < |ks| ensures ks[i] != ks[j] {
      Ordering.AscendingDistinct(ks, Text.Before, i, j);
    }
  }

  /** The network type of each row of a bucket, in row order. */
  function TypesOf(rows: seq<Row>): (ts: seq<string>)
    ensures |ts| == |rows| && forall i :: 0 <= i < |rows| ==> ts[i] == rows[i].networkType
  {
    seq(|rows|, i requires 0 <= i < |rows| => rows[i].networkType)
  }

  /** A type occurs among the types of a bucket exactly when some row of the bucket has it. */
  lemma TypesOfMembers(rows: seq<Row>, t: string)
    ensures t in TypesOf(rows) <==> exists r :: r in rows && r.networkType == t
  {
    if exists r :: r in rows && r.networkType == t {
      var r :| r in rows && r.networkType == t;
      var i :| 0 <= i < |rows| && rows[i] == r;
      assert TypesOf(rows)[i] == t;
    }
  }

  lemma TypesOfSnoc(rows: seq<Row>, r: Row)
    ensures TypesOf(rows + [r]) == TypesOf(rows) + [r.networkType]
  {
  }

  /**
   * The buckets in sorted-key order, the order in which the getters visit them: one per
   * property, every bucket of the response visited, and only buckets of the response.
   */
  function Buckets(results: Results): (bs: seq<seq<Row>>)
    ensures |bs| == |results|
    ensures forall i :: 0 <= i < |results| ==> results[i].1 in bs
    ensures forall b :: b in bs ==> exists i :: 0 <= i < |results| && results[i].1 == b
  {
    var ks := SortedKeys(results);
    var bs := seq(|ks|, i requires 0 <= i < |ks| => Lookup(results, ks[i]));
    LookedUp(results, ks, bs);
    bs
  }

  /** Looking up every key once, in any order, visits each bucket of the response and no other. */
  lemma LookedUp(results: Results, ks: seq<string>, bs: seq<seq<Row>>)
    requires forall k :: k in ks <==> k in Keys(results)
    requires |bs| == |ks| == |results|
    requires forall j :: 0 <= j < |ks| ==> bs[j] == Lookup(results, ks[j])
    ensures forall i :: 0 <= i < |results| ==> results[i].1 in bs
    ensures forall b :: b in bs ==> exists i :: 0 <= i < |results| && results[i].1 == b
  {
    forall i | 0 <= i < |results| ensures results[i].1 in bs {
      LookupEntry(results, i);
      var j :| 0 <= j < |ks| && ks[j] == results[i].0;
      assert bs[j] == results[i].1;
    }
    forall b | b in bs ensures exists i :: 0 <= i < |results| && results[i].1 == b {
      var j :| 0 <= j < |bs| && bs[j] == b;
      var i :| 0 <= i < |results| && results[i] == (ks[j], Lookup(results, ks[j]));
      assert bs[j] == results[i].1;
    }
  }

  /** Bucket `j` holds the rows of the `j`-th key in sorted order. */
  lemma BucketAt(results: Results, j: nat)
    requires j < |results|
    ensures Buckets(results)[j] == Lookup(results, SortedKeys(results)[j])
  {
  }

  /** The network types of the buckets, bucket after bucket, duplicates included. */
  function AllTypes(bs: seq<seq<Row>>): seq<string> {
    if |bs| == 0 then []
    else AllTypes(bs[..|bs| - 1]) + TypesOf(bs[|bs| - 1])
  }

  lemma AllTypesSnoc(bs: seq<seq<Row>>, b: seq<Row>)
    ensures AllTypes(bs + [b]) == AllTypes(bs) + TypesOf(b)
  {
    assert (bs + [b])[..|bs|] == bs;
  }

  lemma {:induction false} AllTypesMembers(bs: seq<seq<Row>>, t: string)
    ensures t in AllTypes(bs) <==> exists i :: 0 <= i < |bs| && t in TypesOf(bs[i])
  {
    if |bs| > 0 {
      var init := bs[..|bs| - 1];
      AllTypesMembers(init, t);
      if exists i :: 0 <= i < |bs| && t in TypesOf(bs[i]) {
        var i :| 0 <= i < |bs| && t in TypesOf(bs[i]);
        if i < |init| {
          assert init[i] == bs[i];
        }
      }
      if exists i :: 0 <= i < |init| && t in TypesOf(init[i]) {
        var i :| 0 <= i < |init| && t in TypesOf(init[i]);
        assert bs[i] == init[i];
      }
    }
  }

  // ---------------------------------------------------------------- chart rows

  /** A chart cell: the formatted time label, or a measured value (null for an unknown latency). */
  datatype Cell = Label(text: string) | Value(value: Option<real>)

  /** One chart row: the label under "createdAt" and one value per network type. */
  type ChartRow = map<string, Cell>

  datatype Chart = Chart(keys: seq<string>, data: seq<ChartRow>)

  /** No later row of the bucket has the network type of row `i`. */
  predicate LastOfType(rows: seq<Row>, i: nat)
    requires i < |rows|
  {
    forall j :: i < j < |rows| ==> rows[j].networkType != rows[i].networkType
  }

  /**
   * The `reduce` over one bucket: each network type present maps to the picked value of the
   * last row of that type, since later rows overwrite earlier ones.
   */
  function Reduce(rows: seq<Row>, pick: Row -> Option<real>): (obj: map<string, Cell>)
    ensures forall t :: t in obj <==> t in TypesOf(rows)
    ensures forall i :: 0 <= i < |rows| && LastOfType(rows, i) ==> obj[rows[i].networkType] == Value(pick(rows[i]))
  {
    if |rows| == 0 then map[]
    else
      var init := rows[..|rows| - 1];
      var last := rows[|rows| - 1];
      var obj := Reduce(init, pick);
      assert rows == init + [last];
      ReduceStep(init, last, pick, obj);
      obj[last.networkType := Value(pick(last))]
  }

  /** Writing the last row's value over the object of the earlier rows keeps the last-wins rule. */
  lemma ReduceStep(init: seq<Row>, last: Row, pick: Row -> Option<real>, obj: map<string, Cell>)
    requires forall t :: t in obj <==> t in TypesOf(init)
    requires forall i :: 0 <= i < |init| && LastOfType(init, i) ==> obj[init[i].networkType] == Value(pick(init[i]))
    ensures var rows := init + [last];
      var r := obj[last.networkType := Value(pick(last))];
      && (forall t :: t in r <==> t in TypesOf(rows))
      && (forall i :: 0 <= i < |rows| && LastOfType(rows, i) ==> r[rows[i].networkType] == Value(pick(rows[i])))
  {
    var rows := init + [last];
    var r := obj[last.networkType := Value(pick(last))];
    TypesOfSnoc(init, last);
    forall i | 0 <= i < |rows| && LastOfType(rows, i) ensures r[rows[i].networkType] == Value(pick(rows[i])) {
      if i < |init| {
        assert rows[i] == init[i];
        assert rows[|rows| - 1] == last;
        forall j | i < j < |init| ensures init[j].networkType != init[i].networkType {
          assert rows[j] == init[j];
        }
      }
    }
  }

  /** The value a series shows for a row of the response. */
  function Latency(r: Row): Option<real> {
    r.latency
  }

  function PacketLoss(r: Row): Option<real> {
    Some(r.packetLoss)
  }

  /** The data row of one non-empty bucket: the label of its first row, then the reduced values. */
  function RowOf(rows: seq<Row>, pick: Row -> Option<real>, format: int -> string): ChartRow
    requires |rows| > 0
  {
    map["createdAt" := Label(format(rows[0].createdAt))] + Reduce(rows, pick)
  }

  predicate HasEmptyBucket(results: Results) {
    exists i :: 0 <= i < |results| && |results[i].1| == 0
  }

  predicate AllNonEmpty(bs: seq<seq<Row>>) {
    forall i :: 0 <= i < |bs| ==> |bs[i]| > 0
  }

  lemma AllNonEmptySnoc(bs: seq<seq<Row>>, b: seq<Row>)
    requires AllNonEmpty(bs) && |b| > 0
    ensures AllNonEmpty(bs + [b])
  {
    forall i | 0 <= i < |bs + [b]| ensures |(bs + [b])[i]| > 0 {
      if i < |bs| {
        assert (bs + [b])[i] == bs[i];
      }
    }
  }

  /** The row of a bucket, defined for the non-empty ones. */
  function RowFn(pick: Row -> Option<real>, format: int -> string): seq<Row> --> ChartRow {
    b requires |b| > 0 => RowOf(b, pick, format)
  }

  /** One data row per bucket, in bucket order. */
  function Rows(bs: seq<seq<Row>>, pick: Row -> Option<real>, format: int -> string): (rows: seq<ChartRow>)
    requires AllNonEmpty(bs)
    ensures |rows| == |bs|
  {
    Seqs.Apply(bs, RowFn(pick, format))
  }

  lemma RowsAt(bs: seq<seq<Row>>, pick: Row -> Option<real>, format: int -> string, i: nat)
    requires AllNonEmpty(bs) && i < |bs|
    ensures Rows(bs, pick, format)[i] == RowOf(bs[i], pick, format)
  {
    Seqs.ApplyAt(bs, RowFn(pick, format), i);
  }

  lemma RowsSnoc(bs: seq<seq<Row>>, b: seq<Row>, pick: Row -> Option<real>, format: int -> string)
    requires AllNonEmpty(bs) && |b| > 0
    ensures AllNonEmpty(bs + [b])
    ensures Rows(bs + [b], pick, format) == Rows(bs, pick, format) + [RowOf(b, pick, format)]
  {
    AllNonEmptySnoc(bs, b);
    Seqs.ApplySnoc(bs, b, RowFn(pick, format));
  }

  /**
   * The chart the getters compute: the network types in first-seen order over the buckets
   * in sorted-key order, and one data row per bucket in that order. A bucket without rows
   * has no first row to label, so the getter throws: None.
   */
  function ChartSpec(results: Results, pick: Row -> Option<real>, format: int -> string): Option<Chart>
  {
    ChartOf(Buckets(results), pick, format)
  }

  /** The chart of a sequence of buckets visited in order. */
  function ChartOf(bs: seq<seq<Row>>, pick: Row -> Option<real>, format: int -> string): Option<Chart>
  {
    if AllNonEmpty(bs) then Some(Chart(Seqs.FirstSeen(AllTypes(bs)), Rows(bs, pick, format)))
    else None
  }

  /** The getters fail exactly when some bucket is empty. */
  lemma ChartFailsIff(results: Results, pick: Row -> Option<real>, format: int -> string)
    ensures ChartSpec(results, pick, format).None? <==> HasEmptyBucket(results)
  {
    var bs := Buckets(results);
    if HasEmptyBucket(results) {
      var i :| 0 <= i < |results| && |results[i].1| == 0;
      assert results[i].1 in bs;
    }
    if !AllNonEmpty(bs) {
      var j :| 0 <= j < |bs| && |bs[j]| == 0;
      assert bs[j] in bs;
    }
  }

  /** The series: each network type of the response once, and nothing else. */
  lemma ChartKeys(results: Results, pick: Row -> Option<real>, format: int -> string)
    requires ChartSpec(results, pick, format).Some?
    ensures var keys := ChartSpec(results, pick, format).value.keys;
      && Seqs.NoDup(keys)
      && forall t :: t in keys <==> exists i :: 0 <= i < |results| && t in TypesOf(results[i].1)
  {
    var bs := Buckets(results);
    var keys := ChartSpec(results, pick, format).value.keys;
    forall t ensures t in keys <==> exists i :: 0 <= i < |results| && t in TypesOf(results[i].1) {
      AllTypesMembers(bs, t);
      if exists j :: 0 <= j < |bs| && t in TypesOf(bs[j]) {
        var j :| 0 <= j < |bs| && t in TypesOf(bs[j]);
        assert bs[j] in bs;
        var i :| 0 <= i < |results| && results[i].1 == bs[j];
      }
      if exists i :: 0 <= i < |results| && t in TypesOf(results[i].1) {
        var i :| 0 <= i < |results| && t in TypesOf(results[i].1);
        assert results[i].1 in bs;
        var j :| 0 <= j < |bs| && bs[j] == results[i].1;
      }
    }
  }

  /**
   * What a data row holds for its bucket: the label and one cell per network type of the
   * bucket, each the value of the last row of its type; a network type named "createdAt"
   * would replace the label, so the label is promised only when there is none.
   */
  ghost predicate RowCells(row: ChartRow, bucket: seq<Row>, pick: Row -> Option<real>, format: int -> string)
    requires |bucket| > 0
  {
    && (forall t :: t in row <==> t == "createdAt" || t in TypesOf(bucket))
    && (forall j :: 0 <= j < |bucket| && LastOfType(bucket, j) ==>
          bucket[j].networkType in row && row[bucket[j].networkType] == Value(pick(bucket[j])))
    && ("createdAt" !in TypesOf(bucket) ==> "createdAt" in row && row["createdAt"] == Label(format(bucket[0].createdAt)))
  }

  lemma RowOfCells(bucket: seq<Row>, pick: Row -> Option<real>, format: int -> string)
    requires |bucket| > 0
    ensures RowCells(RowOf(bucket, pick, format), bucket, pick, format)
  {
  }

  /** Row `i` belongs to the `i`-th key in sorted order and holds that bucket's cells. */
  lemma ChartRowCells(results: Results, pick: Row -> Option<real>, format: int -> string, i: nat)
    requires ChartSpec(results, pick, format).Some?
    ensures |ChartSpec(results, pick, format).value.data| == |results|
    ensures i < |results| ==>
      var bucket := Lookup(results, SortedKeys(results)[i]);
      && |bucket| > 0
      && RowCells(ChartSpec(results, pick, format).value.data[i], bucket, pick, format)
  {
    if i < |results| {
      var bs := Buckets(results);
      BucketAt(results, i);
      RowsAt(bs, pick, format, i);
      RowOfCells(bs[i], pick, format);
    }
  }

  /** The two charts of one response have the same series and the same number of rows. */
  lemma ChartsAgree(results: Results, format: int -> string)
    ensures ChartSpec(results, Latency, format).Some? <==> ChartSpec(results, PacketLoss, format).Some?
    ensures ChartSpec(results, Latency, format).Some? ==>
      && ChartSpec(results, Latency, format).value.keys == ChartSpec(results, PacketLoss, format).value.keys
      && |ChartSpec(results, Latency, format).value.data| == |ChartSpec(results, PacketLoss, format).value.data|
  {
  }

  // ---------------------------------------------------------------- the getter loops

  /** The inner loop: push each network type of the bucket not yet in `keys`. */
  method CollectTypes(keys: seq<string>, ghost seen: seq<string>, result: seq<Row>) returns (keys': seq<string>)
    requires keys == Seqs.FirstSeen(seen)
    ensures keys' == Seqs.FirstSeen(seen + TypesOf(result))
  {
    keys' := keys;
    var j := 0;
    assert seen + TypesOf(result[..0]) == seen;
    while j < |result|
      invariant 0 <= j <= |result|
      invariant keys' == Seqs.FirstSeen(seen + TypesOf(result[..j]))
    {
      var t := result[j].networkType;
      Seqs.TakeSnoc(result, j);
      TypesOfSnoc(result[..j], result[j]);
      assert seen + TypesOf(result[..j + 1]) == (seen + TypesOf(result[..j])) + [t];
      Seqs.FirstSeenSnoc(seen + TypesOf(result[..j]), t);
      if t !in keys' {
        keys' := keys' + [t];
      }
      j := j + 1;
    }
    assert result[..j] == result;
  }

  /**
   * The getters: visit the buckets in sorted-key order, each key's rows looked up in the
   * response, and build the chart.
   */
  method Pivot(results: Results, pick: Row -> Option<real>, format: int -> string) returns (chart: Option<Chart>)
    ensures chart == ChartSpec(results, pick, format)
  {
    chart := PivotBuckets(Buckets(results), pick, format);
  }

  /** The getter loop: collect new network types bucket by bucket, then push the bucket's row. */
  method PivotBuckets(bs: seq<seq<Row>>, pick: Row -> Option<real>, format: int -> string) returns (chart: Option<Chart>)
    ensures chart == ChartOf(bs, pick, format)
  {
    var keys: seq<string> := [];
    var data: seq<ChartRow> := [];
    var i := 0;
    while i < |bs|
      invariant 0 <= i <= |bs|
      invariant AllNonEmpty(bs[..i])
      invariant keys == Seqs.FirstSeen(AllTypes(bs[..i]))
      invariant data == Rows(bs[..i], pick, format)
    {
      var result := bs[i];
      keys := CollectTypes(keys, AllTypes(bs[..i]), result);
      if |result| == 0 {
        return None;
      }
      PivotStep(bs, i, keys, data, pick, format);
      data := data + [RowOf(result, pick, format)];
      i := i + 1;
    }
    assert bs[..i] == bs;
    chart := Some(Chart(keys, data));
  }

  /** Visiting bucket `i` extends the series and the rows by that bucket's contribution. */
  lemma PivotStep(bs: seq<seq<Row>>, i: nat, keys: seq<string>, data: seq<ChartRow>,
                  pick: Row -> Option<real>, format: int -> string)
    requires i < |bs| && AllNonEmpty(bs[..i]) && |bs[i]| > 0
    requires keys == Seqs.FirstSeen(AllTypes(bs[..i]) + TypesOf(bs[i]))
    requires data == Rows(bs[..i], pick, format)
    ensures AllNonEmpty(bs[..i + 1])
    ensures keys == Seqs.FirstSeen(AllTypes(bs[..i + 1]))
    ensures data + [RowOf(bs[i], pick, format)] == Rows(bs[..i + 1], pick, format)
  {
    Seqs.TakeSnoc(bs, i);
    AllTypesSnoc(bs[..i], bs[i]);
    RowsSnoc(bs[..i], bs[i], pick, format);
  }
}
