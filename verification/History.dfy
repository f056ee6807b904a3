/** Compression of a property's history (backend/database/DBDeviceSerialize.cpp, handleGetPropertyHistory). The JSON
    object is a map from instants, which stand for their ctime strings. */
module History {

  datatype Sample = Sample(time: int, value: real)

  // A row of the property log; a value that is no number is kept as it is
  datatype Row = Number(time: int, value: real) | Other(time: int, text: string)

  datatype Entry = Average(mean: real) | Plain(text: string)

  type Json = map<int, Entry>

  const TWO64: int := 0x1_0000_0000_0000_0000

  // ---------- averages ----------

  function TimeSum(b: seq<Sample>): int {
    if b == [] then 0 else TimeSum(b[..|b| - 1]) + b[|b| - 1].time
  }

  function ValueSum(b: seq<Sample>): real {
    if b == [] then 0.0 else ValueSum(b[..|b| - 1]) + b[|b| - 1].value
  }

  // time_t divided by size_t: the sum is taken as an unsigned number
  function DivideTime(sum: int, size: nat): int
    requires size > 0
  {
    if sum >= 0 || size == 1 then sum / size else (sum + TWO64) / size
  }

  // std::round: halves go away from zero
  function Round(x: real): int {
    if x >= 0.0 then (x + 0.5).Floor else -((-x + 0.5).Floor)
  }

  function MeanTime(b: seq<Sample>): int
    requires b != []
  {
    DivideTime(TimeSum(b), |b|)
  }

  function Mean(b: seq<Sample>): real
    requires b != []
  {
    ValueSum(b) / |b| as real
  }

  function Cents(x: real): real {
    Round(x * 100.0) as real / 100.0
  }

  function AverageOf(b: seq<Sample>): Entry
    requires b != []
  {
    Average(Cents(Mean(b)))
  }

  /** averageAndSetValue: one entry for all the values collected. */
  method AverageAndSetValue(values: seq<Sample>, json: Json) returns (updated: Json)
    requires values != []
    ensures updated == json[MeanTime(values) := AverageOf(values)]
  {
    var averageVal := 0.0;
    var averageTime := 0;
    for i := 0 to |values|
      invariant averageTime == TimeSum(values[..i]) && averageVal == ValueSum(values[..i])
    {
      assert values[..i + 1][..i] == values[..i];
      averageTime := averageTime + values[i].time;
      averageVal := averageVal + values[i].value;
    }
    assert values[..|values|] == values;
    averageTime := DivideTime(averageTime, |values|);
    averageVal := averageVal / |values| as real;
    averageVal := Round(averageVal * 100.0) as real / 100.0;
    updated := json[averageTime := Average(averageVal)];
  }

  // ---------- the pass over the rows ----------

  // A new bucket starts when the row is more than `compression` after the first of the open one
  predicate Closes(open: seq<Sample>, time: int, compression: int) {
    open != [] && time - open[0].time > compression
  }

  // What the pass makes of the rows still to come
  function Finish(json: Json, open: seq<Sample>, rest: seq<Row>, compression: int): Json
    decreases |rest|
  {
    if rest == [] then
      if open == [] then json else json[MeanTime(open) := AverageOf(open)]
    else
      match rest[0]
      case Number(time, value) =>
        if Closes(open, time, compression) then
          Finish(json[MeanTime(open) := AverageOf(open)], [Sample(time, value)], rest[1..], compression)
        else Finish(json, open + [Sample(time, value)], rest[1..], compression)
      case Other(time, text) => Finish(json[time := Plain(text)], open, rest[1..], compression)
  }

  /** handleGetPropertyHistory. */
  method HandleGetPropertyHistory(rows: seq<Row>, compression: int) returns (json: Json)
    ensures json == Finish(map[], [], rows, compression)
  {
    json := map[];
    var avgValues: seq<Sample> := [];
    for i := 0 to |rows|
      invariant Finish(json, avgValues, rows[i..], compression) == Finish(map[], [], rows, compression)
    {
      assert rows[i..][1..] == rows[i + 1..];
      match rows[i]
      case Number(time, value) =>
        if Closes(avgValues, time, compression) {
          json := AverageAndSetValue(avgValues, json);
          avgValues := [];
        }
        assert [] + [Sample(time, value)] == [Sample(time, value)];
        avgValues := avgValues + [Sample(time, value)];
      case Other(time, text) =>
        json := json[time := Plain(text)];
    }
    if avgValues != [] {
      json := AverageAndSetValue(avgValues, json);
    }
  }

  // ---------- buckets ----------

  // The buckets that are averaged, in order
  ghost function Buckets(open: seq<Sample>, rest: seq<Row>, compression: int): seq<seq<Sample>>
    decreases |rest|
  {
    if rest == [] then
      if open == [] then [] else [open]
    else
      match rest[0]
      case Number(time, value) =>
        if Closes(open, time, compression) then [open] + Buckets([Sample(time, value)], rest[1..], compression)
        else Buckets(open + [Sample(time, value)], rest[1..], compression)
      case Other(_, _) => Buckets(open, rest[1..], compression)
  }

  ghost function Flatten(bs: seq<seq<Sample>>): seq<Sample> {
    if bs == [] then [] else bs[0] + Flatten(bs[1..])
  }

  ghost function Samples(rows: seq<Row>): seq<Sample> {
    if rows == [] then []
    else (if rows[0].Number? then [Sample(rows[0].time, rows[0].value)] else []) + Samples(rows[1..])
  }

  // The rows of the query: ordered by time, none before 1970
  ghost predicate Ordered(rows: seq<Row>) {
    && (forall i :: 0 <= i < |rows| ==> rows[i].time >= 0)
    && (forall i, j :: 0 <= i < j < |rows| ==> rows[i].time <= rows[j].time)
  }

  // An open bucket, with the rows still to come after it
  ghost predicate OpenBefore(open: seq<Sample>, rest: seq<Row>, compression: int) {
    && (forall i :: 0 <= i < |open| ==> 0 <= open[0].time <= open[i].time <= open[0].time + compression)
    && (forall i, j :: 0 <= i < |open| && 0 <= j < |rest| ==> open[i].time <= rest[j].time)
  }

  lemma FlattenCons(b: seq<Sample>, bs: seq<seq<Sample>>)
    ensures Flatten([b] + bs) == b + Flatten(bs)
  {
    assert ([b] + bs)[1..] == bs;
  }

  // One numeric row that starts the next bucket, ...
  lemma {:induction false} PartitionClosed(open: seq<Sample>, s: Sample, rest: seq<Row>, compression: int)
    requires rest != [] && rest[0] == Number(s.time, s.value) && Closes(open, s.time, compression)
    requires Flatten(Buckets([s], rest[1..], compression)) == [s] + Samples(rest[1..])
    ensures Flatten(Buckets(open, rest, compression)) == open + Samples(rest)
  {
    var later := Buckets([s], rest[1..], compression);
    assert Buckets(open, rest, compression) == [open] + later;
    FlattenCons(open, later);
  }

  // ... and one that is taken into the open one
  lemma {:induction false} PartitionOpen(open: seq<Sample>, s: Sample, rest: seq<Row>, compression: int)
    requires rest != [] && rest[0] == Number(s.time, s.value) && !Closes(open, s.time, compression)
    requires Flatten(Buckets(open + [s], rest[1..], compression)) == (open + [s]) + Samples(rest[1..])
    ensures Flatten(Buckets(open, rest, compression)) == open + Samples(rest)
  {
    assert Buckets(open, rest, compression) == Buckets(open + [s], rest[1..], compression);
    assert (open + [s]) + Samples(rest[1..]) == open + ([s] + Samples(rest[1..]));
  }

  lemma {:induction false} PartitionOther(open: seq<Sample>, rest: seq<Row>, compression: int)
    requires rest != [] && rest[0].Other?
    requires Flatten(Buckets(open, rest[1..], compression)) == open + Samples(rest[1..])
    ensures Flatten(Buckets(open, rest, compression)) == open + Samples(rest)
  {
    assert Samples(rest) == Samples(rest[1..]);
  }

  lemma {:induction false} PartitionEnd(open: seq<Sample>, compression: int)
    ensures Flatten(Buckets(open, [], compression)) == open + Samples([])
  {
    FlattenCons(open, []);
    assert [open] + [] == [open] && open + [] == open;
  }

  /** The buckets partition the numeric rows in order. */
  lemma {:induction false} BucketsPartition(open: seq<Sample>, rest: seq<Row>, compression: int)
    ensures Flatten(Buckets(open, rest, compression)) == open + Samples(rest)
    decreases |rest|
  {
    if rest == [] {
      PartitionEnd(open, compression);
    } else if rest[0].Other? {
      BucketsPartition(open, rest[1..], compression);
      PartitionOther(open, rest, compression);
    } else {
      var s := Sample(rest[0].time, rest[0].value);
      if Closes(open, s.time, compression) {
        BucketsPartition([s], rest[1..], compression);
        PartitionClosed(open, s, rest, compression);
      } else {
        BucketsPartition(open + [s], rest[1..], compression);
        PartitionOpen(open, s, rest, compression);
      }
    }
  }

  ghost predicate Spans(b: seq<Sample>, compression: int) {
    b != [] && forall i :: 0 <= i < |b| ==> 0 <= b[0].time <= b[i].time <= b[0].time + compression
  }

  ghost predicate Spaced(bs: seq<seq<Sample>>, compression: int) {
    && (forall i :: 0 <= i < |bs| ==> Spans(bs[i], compression))
    && (forall i :: 0 <= i < |bs| - 1 ==> bs[i][0].time + compression < bs[i + 1][0].time)
  }

  // The open bucket comes first
  lemma {:induction false} OpenComesFirst(open: seq<Sample>, rest: seq<Row>, compression: int)
    requires open != []
    ensures var bs := Buckets(open, rest, compression); |bs| > 0 && bs[0] != [] && bs[0][0] == open[0]
    decreases |rest|
  {
    if rest == [] || rest[0].Other? {
      if rest != [] {
        OpenComesFirst(open, rest[1..], compression);
      }
    } else if !Closes(open, rest[0].time, compression) {
      OpenComesFirst(open + [Sample(rest[0].time, rest[0].value)], rest[1..], compression);
    }
  }

  /** The first bucket starts with the first numeric row. */
  lemma {:induction false} BucketsStart(rest: seq<Row>, compression: int)
    ensures var bs := Buckets([], rest, compression);
      |bs| > 0 ==> bs[0] != [] && exists j :: 0 <= j < |rest| && bs[0][0].time == rest[j].time
    decreases |rest|
  {
    if rest == [] {
    } else if rest[0].Number? {
      OpenComesFirst([Sample(rest[0].time, rest[0].value)], rest[1..], compression);
      assert [] + [Sample(rest[0].time, rest[0].value)] == [Sample(rest[0].time, rest[0].value)];
    } else {
      BucketsStart(rest[1..], compression);
      var bs: seq<seq<Sample>> := Buckets([], rest[1..], compression);
      if |bs| > 0 {
        var j: int :| 0 <= j < |rest[1..]| && bs[0][0].time == rest[1..][j].time;
        assert rest[j + 1].time == rest[1..][j].time;
      }
    }
  }

  lemma SpacedCons(open: seq<Sample>, later: seq<seq<Sample>>, compression: int)
    requires Spans(open, compression) && Spaced(later, compression)
    requires |later| > 0 ==> open[0].time + compression < later[0][0].time
    ensures Spaced([open] + later, compression)
  {
    var bs := [open] + later;
    assert forall i :: 0 < i < |bs| ==> bs[i] == later[i - 1];
  }

  /** Each bucket spans at most the compression, and the next one starts later than that. */
  lemma {:induction false} BucketsSpan(open: seq<Sample>, rest: seq<Row>, compression: nat)
    requires Ordered(rest) && OpenBefore(open, rest, compression)
    ensures Spaced(Buckets(open, rest, compression), compression)
    decreases |rest|
  {
    if rest == [] {
    } else if rest[0].Other? {
      BucketsSpan(open, rest[1..], compression);
    } else {
      var s := Sample(rest[0].time, rest[0].value);
      if Closes(open, rest[0].time, compression) {
        BucketsSpan([s], rest[1..], compression);
        OpenComesFirst([s], rest[1..], compression);
        SpacedCons(open, Buckets([s], rest[1..], compression), compression);
      } else {
        BucketsSpan(open + [s], rest[1..], compression);
      }
    }
  }

  lemma {:induction false} TimeSumBounds(b: seq<Sample>, low: int, high: int)
    requires forall i :: 0 <= i < |b| ==> low <= b[i].time <= high
    ensures low * |b| <= TimeSum(b) <= high * |b|
  {
    if b == [] {
    } else {
      TimeSumBounds(b[..|b| - 1], low, high);
    }
  }

  lemma ProductMonotone(a: int, b: int, c: nat)
    ensures a <= b ==> a * c <= b * c
  {
  }

  lemma QuotientBounds(sum: int, size: nat, low: nat, high: int)
    requires size > 0 && low * size <= sum <= high * size
    ensures sum >= 0 && low <= sum / size <= high
  {
    var q := sum / size;
    ProductMonotone(0, low, size);
    ProductMonotone(q + 1, low, size);
    ProductMonotone(high + 1, q, size);
  }

  lemma MeanTimeInSpan(b: seq<Sample>, compression: nat)
    requires Spans(b, compression)
    ensures b[0].time <= MeanTime(b) <= b[0].time + compression
  {
    TimeSumBounds(b, b[0].time, b[0].time + compression);
    QuotientBounds(TimeSum(b), |b|, b[0].time, b[0].time + compression);
  }

  // ---------- what the result holds ----------

  ghost predicate IsMeanTime(bs: seq<seq<Sample>>, compression: int, k: int) {
    exists i :: 0 <= i < |bs| && Spans(bs[i], compression) && MeanTime(bs[i]) == k
  }

  // The last row at time `k` that is no number
  ghost function LastOther(rows: seq<Row>, k: int): seq<string> {
    if rows == [] then []
    else
      var later := LastOther(rows[1..], k);
      if later != [] then later else if rows[0].Other? && rows[0].time == k then [rows[0].text] else []
  }

  lemma {:induction false} LastOtherTime(rows: seq<Row>, k: int)
    ensures LastOther(rows, k) != [] ==> exists j :: 0 <= j < |rows| && rows[j].time == k
  {
    if rows == [] {
    } else {
      LastOtherTime(rows[1..], k);
      if LastOther(rows[1..], k) != [] {
        var j :| 0 <= j < |rows[1..]| && rows[1..][j].time == k;
        assert rows[j + 1].time == k;
      }
    }
  }

  // Bucket `i` is the one averaged at `k`, and that is the entry there
  ghost predicate AveragedAt(result: Json, bs: seq<seq<Sample>>, compression: int, i: nat, k: int) {
    && i < |bs| && Spans(bs[i], compression) && MeanTime(bs[i]) == k
    && k in result && result[k] == AverageOf(bs[i])
  }

  // The entry of the result at `k`: the average of the bucket with that mean time, or else the last row at that
  // time that is no number, or else what was there before
  ghost predicate EntryIs(
    result: Json, before: Json, bs: seq<seq<Sample>>, other: seq<string>, compression: int, k: int)
  {
    if IsMeanTime(bs, compression, k) then exists i :: AveragedAt(result, bs, compression, i, k)
    else if other != [] then k in result && result[k] == Plain(other[0])
    else (k in result <==> k in before) && (k in result ==> result[k] == before[k])
  }

  lemma {:induction false} StartsAscend(bs: seq<seq<Sample>>, compression: nat, i: nat)
    requires i < |bs| && Spaced(bs, compression)
    ensures bs[0][0].time + i * (compression + 1) <= bs[i][0].time
  {
    if i > 0 {
      StartsAscend(bs, compression, i - 1);
    }
  }

  lemma StartsAfterFirst(bs: seq<seq<Sample>>, compression: nat, i: nat)
    requires i < |bs| && Spaced(bs, compression)
    ensures bs[0][0].time <= bs[i][0].time
  {
    StartsAscend(bs, compression, i);
    ProductMonotone(0, i, compression + 1);
  }

  // No bucket has its mean time before the first one starts
  lemma MeanTimeFrom(bs: seq<seq<Sample>>, compression: nat, k: int)
    requires Spaced(bs, compression) && IsMeanTime(bs, compression, k)
    ensures |bs| > 0 && k >= bs[0][0].time
  {
    var i :| 0 <= i < |bs| && Spans(bs[i], compression) && MeanTime(bs[i]) == k;
    MeanTimeInSpan(bs[i], compression);
    StartsAfterFirst(bs, compression, i);
  }

  /** Every entry of the result, whatever rows are mixed: averages are never overwritten. */
  lemma {:induction false} FinishEntry(json: Json, open: seq<Sample>, rest: seq<Row>, compression: nat, k: int)
    requires Ordered(rest) && OpenBefore(open, rest, compression)
    ensures EntryIs(Finish(json, open, rest, compression), json, Buckets(open, rest, compression),
                    LastOther(rest, k), compression, k)
    decreases |rest|
  {
    if rest == [] {
      FinishOpen(json, open, compression, k);
    } else if rest[0].Other? {
      FinishEntry(json[rest[0].time := Plain(rest[0].text)], open, rest[1..], compression, k);
    } else {
      var s := Sample(rest[0].time, rest[0].value);
      if Closes(open, rest[0].time, compression) {
        FinishEntry(json[MeanTime(open) := AverageOf(open)], [s], rest[1..], compression, k);
        ClosedFinish(json, open, s, rest, compression, k);
      } else {
        FinishEntry(json, open + [s], rest[1..], compression, k);
      }
    }
  }

  lemma ClosedFinish(json: Json, open: seq<Sample>, s: Sample, rest: seq<Row>, compression: nat, k: int)
    requires rest != [] && rest[0] == Number(s.time, s.value) && Ordered(rest) && Closes(open, s.time, compression)
    requires OpenBefore(open, rest, compression)
    requires EntryIs(Finish(json, open, rest, compression), json[MeanTime(open) := AverageOf(open)],
                     Buckets([s], rest[1..], compression), LastOther(rest[1..], k), compression, k)
    ensures EntryIs(Finish(json, open, rest, compression), json, Buckets(open, rest, compression),
                    LastOther(rest, k), compression, k)
  {
    BucketsSpan([s], rest[1..], compression);
    OpenComesFirst([s], rest[1..], compression);
    LastOtherTime(rest[1..], k);
    ClosedEntry(Finish(json, open, rest, compression), json, open, Buckets([s], rest[1..], compression), s,
                LastOther(rest[1..], k), compression, k);
  }

  lemma FinishOpen(json: Json, open: seq<Sample>, compression: nat, k: int)
    requires OpenBefore(open, [], compression)
    ensures EntryIs(Finish(json, open, [], compression), json, if open == [] then [] else [open], [], compression, k)
  {
    if open != [] {
      assert [open][0] == open && Spans(open, compression);
      if k == MeanTime(open) {
        assert AveragedAt(Finish(json, open, [], compression), [open], compression, 0, k);
      }
    }
  }

  // Closing a bucket: nothing written later has its mean time
  lemma ClosedEntry(result: Json, json: Json, open: seq<Sample>, later: seq<seq<Sample>>, s: Sample,
                    other: seq<string>, compression: nat, k: int)
    requires Spans(open, compression) && open[0].time + compression < s.time
    requires Spaced(later, compression) && |later| > 0 && later[0][0] == s
    requires other != [] ==> k >= s.time
    requires EntryIs(result, json[MeanTime(open) := AverageOf(open)], later, other, compression, k)
    ensures EntryIs(result, json, [open] + later, other, compression, k)
  {
    var bs := [open] + later;
    assert bs[0] == open;
    MeanTimeInSpan(open, compression);
    forall i | 0 <= i < |bs| && Spans(bs[i], compression) && MeanTime(bs[i]) == k
      ensures i == 0 || IsMeanTime(later, compression, k)
    {
      if i > 0 {
        assert later[i - 1] == bs[i];
      }
    }
    if IsMeanTime(later, compression, k) {
      MeanTimeFrom(later, compression, k);
      var i: nat :| AveragedAt(result, later, compression, i, k);
      assert bs[i + 1] == later[i];
      assert AveragedAt(result, bs, compression, i + 1, k);
    } else if k == MeanTime(open) {
      assert AveragedAt(result, bs, compression, 0, k);
    }
  }

  // ---------- the guarantees of the compression ----------

  lemma LaterStarts(bs: seq<seq<Sample>>, compression: nat, i: nat, j: nat)
    requires Spaced(bs, compression) && i < j < |bs|
    ensures bs[i][0].time + compression < bs[j][0].time
  {
    var tail := bs[i + 1..];
    assert tail[0] == bs[i + 1] && tail[j - i - 1] == bs[j];
    assert Spaced(tail, compression);
    StartsAfterFirst(tail, compression, j - i - 1);
  }

  /** Mean times strictly increase from bucket to bucket, so no average overwrites another. */
  lemma MeanTimesAscend(bs: seq<seq<Sample>>, compression: nat, i: nat, j: nat)
    requires Spaced(bs, compression) && i < j < |bs|
    ensures MeanTime(bs[i]) < MeanTime(bs[j])
  {
    MeanTimeInSpan(bs[i], compression);
    MeanTimeInSpan(bs[j], compression);
    LaterStarts(bs, compression, i, j);
  }

  /** The result for rows in order, numbers or not: at each instant the average of the only bucket with that mean
      time, or else the last row there that is no number, or else nothing. The buckets partition the numbers in
      order, each spans at most the compression and their mean times increase. */
  lemma HistoryOf(rows: seq<Row>, compression: nat)
    requires Ordered(rows)
    ensures var bs := Buckets([], rows, compression); var json := Finish(map[], [], rows, compression);
      && Flatten(bs) == Samples(rows)
      && Spaced(bs, compression)
      && (forall i, j :: 0 <= i < j < |bs| ==> MeanTime(bs[i]) < MeanTime(bs[j]))
      && (forall i :: 0 <= i < |bs| ==> MeanTime(bs[i]) in json && json[MeanTime(bs[i])] == AverageOf(bs[i]))
      && (forall k :: !IsMeanTime(bs, compression, k) ==>
            if LastOther(rows, k) != [] then k in json && json[k] == Plain(LastOther(rows, k)[0]) else k !in json)
  {
    var bs := Buckets([], rows, compression);
    var json := Finish(map[], [], rows, compression);
    BucketsPartition([], rows, compression);
    BucketsSpan([], rows, compression);
    forall i, j | 0 <= i < j < |bs|
      ensures MeanTime(bs[i]) < MeanTime(bs[j])
    {
      MeanTimesAscend(bs, compression, i, j);
    }
    forall i | 0 <= i < |bs|
      ensures MeanTime(bs[i]) in json && json[MeanTime(bs[i])] == AverageOf(bs[i])
    {
      var k := MeanTime(bs[i]);
      FinishEntry(map[], [], rows, compression, k);
      assert IsMeanTime(bs, compression, k);
      var j: nat :| AveragedAt(json, bs, compression, j, k);
      assert i == j;
    }
    forall k | !IsMeanTime(bs, compression, k)
      ensures if LastOther(rows, k) != [] then k in json && json[k] == Plain(LastOther(rows, k)[0]) else k !in json
    {
      FinishEntry(map[], [], rows, compression, k);
    }
  }

  /** There are at most (last - first) / (compression + 1) + 1 buckets. */
  lemma BucketCount(rows: seq<Row>, compression: nat)
    requires Ordered(rows) && rows != []
    ensures |Buckets([], rows, compression)| <= (rows[|rows| - 1].time - rows[0].time) / (compression + 1) + 1
  {
    var bs := Buckets([], rows, compression);
    if |bs| > 0 {
      LastBucketStarts(rows, compression);
      Steps(|bs| - 1, compression + 1, rows[|rows| - 1].time - rows[0].time);
    }
  }

  lemma LastBucketStarts(rows: seq<Row>, compression: nat)
    requires Ordered(rows) && rows != [] && |Buckets([], rows, compression)| > 0
    ensures (|Buckets([], rows, compression)| - 1) * (compression + 1) <= rows[|rows| - 1].time - rows[0].time
  {
    var bs := Buckets([], rows, compression);
    BucketsSpan([], rows, compression);
    BucketsStart(rows, compression);
    BucketsPartition([], rows, compression);
    StartsAscend(bs, compression, |bs| - 1);
    LastStart(bs, rows);
  }

  lemma Steps(n: nat, step: nat, length: int)
    requires step > 0 && n * step <= length
    ensures n <= length / step
  {
    ProductMonotone(length / step + 1, n, step);
  }

  // The last bucket does not start after the last row
  lemma {:induction false} LastStart(bs: seq<seq<Sample>>, rows: seq<Row>)
    requires |bs| > 0 && bs[|bs| - 1] != [] && Ordered(rows) && rows != [] && Flatten(bs) == Samples(rows)
    ensures bs[|bs| - 1][0].time <= rows[|rows| - 1].time
  {
    FlattenMember(bs, |bs| - 1, bs[|bs| - 1][0]);
    SamplesMember(rows, bs[|bs| - 1][0]);
    var j :| 0 <= j < |rows| && rows[j].time == bs[|bs| - 1][0].time;
    assert j < |rows| - 1 ==> rows[j].time <= rows[|rows| - 1].time;
  }

  lemma {:induction false} FlattenMember(bs: seq<seq<Sample>>, i: nat, s: Sample)
    requires i < |bs| && s in bs[i]
    ensures s in Flatten(bs)
  {
    if i > 0 {
      FlattenMember(bs[1..], i - 1, s);
    }
  }

  lemma {:induction false} SamplesMember(rows: seq<Row>, s: Sample)
    requires s in Samples(rows)
    ensures exists j :: 0 <= j < |rows| && rows[j] == Number(s.time, s.value)
  {
    if rows[0] == Number(s.time, s.value) {
    } else {
      SamplesMember(rows[1..], s);
      var j :| 0 <= j < |rows[1..]| && rows[1..][j] == Number(s.time, s.value);
      assert rows[j + 1] == rows[1..][j];
    }
  }

  lemma {:induction false} ValueSumBounds(b: seq<Sample>, low: real, high: real)
    requires forall i :: 0 <= i < |b| ==> low <= b[i].value <= high
    ensures low * |b| as real <= ValueSum(b) <= high * |b| as real
  {
    if b == [] {
    } else {
      ValueSumBounds(b[..|b| - 1], low, high);
      assert low * |b| as real == low * (|b| - 1) as real + low;
      assert high * |b| as real == high * (|b| - 1) as real + high;
    }
  }

  lemma RealQuotientBounds(sum: real, size: real, low: real, high: real)
    requires size > 0.0 && low * size <= sum <= high * size
    ensures low <= sum / size <= high
  {
  }

  /** A stored average is within half a hundredth of the mean of its bucket, which lies between the smallest and the
      greatest value in it. */
  lemma AverageIsClose(b: seq<Sample>, low: real, high: real)
    requires b != [] && forall i :: 0 <= i < |b| ==> low <= b[i].value <= high
    ensures low <= Mean(b) <= high
    ensures -0.005 <= AverageOf(b).mean - Mean(b) <= 0.005
  {
    ValueSumBounds(b, low, high);
    RealQuotientBounds(ValueSum(b), |b| as real, low, high);
  }

  // ---------- what an average is ----------

  /** The sums: of one sample its own, of two buckets put together the sum of theirs. */
  lemma {:induction false} SumLaws(a: seq<Sample>, b: seq<Sample>)
    ensures |a| == 1 ==> TimeSum(a) == a[0].time && ValueSum(a) == a[0].value
    ensures TimeSum(a + b) == TimeSum(a) + TimeSum(b)
    ensures ValueSum(a + b) == ValueSum(a) + ValueSum(b)
    decreases |b|
  {
    if |a| == 1 {
      assert a[..0] == [];
    }
    if b == [] {
      assert a + b == a;
    } else {
      var init := b[..|b| - 1];
      SumLaws(a, init);
      assert (a + b)[..|a + b| - 1] == a + init;
    }
  }

  /** The mean of one sample is its value, and buckets put together count by their sizes. */
  lemma MeanLaws(a: seq<Sample>, b: seq<Sample>)
    requires a != [] && b != []
    ensures |a| == 1 ==> Mean(a) == a[0].value
    ensures Mean(a + b) * |a + b| as real == Mean(a) * |a| as real + Mean(b) * |b| as real
  {
    SumLaws(a, b);
    TimesSize(ValueSum(a), |a|);
    TimesSize(ValueSum(b), |b|);
    TimesSize(ValueSum(a + b), |a + b|);
  }

  lemma TimesSize(sum: real, size: nat)
    requires size > 0
    ensures sum / size as real * size as real == sum
  {
  }

  /** The mean time is the mean rounded down to a whole second. */
  lemma MeanTimeIs(b: seq<Sample>)
    requires b != [] && TimeSum(b) >= 0
    ensures |b| * MeanTime(b) <= TimeSum(b) < |b| * (MeanTime(b) + 1)
  {
    QuotientIs(TimeSum(b), |b|);
  }

  lemma QuotientIs(sum: nat, size: nat)
    requires size > 0
    ensures size * (sum / size) <= sum < size * (sum / size + 1)
  {
  }

  // For a sum before 1970 the division goes by its value as an unsigned number
  lemma BeforeEpoch(sum: int, size: nat)
    requires -TWO64 <= sum < 0 && size > 1
    ensures size * DivideTime(sum, size) <= sum + TWO64 < size * (DivideTime(sum, size) + 1)
  {
    QuotientIs(sum + TWO64, size);
  }

  // `n` hundredths are nearest to `x`, halves away from zero
  ghost predicate NearestHundredths(n: int, x: real) {
    && -0.5 <= n as real - x * 100.0 <= 0.5
    && (n as real - x * 100.0 == 0.5 ==> x > 0.0)
    && (n as real - x * 100.0 == -0.5 ==> x < 0.0)
  }

  lemma RoundedIsNearest(x: real)
    ensures NearestHundredths(Round(x * 100.0), x) && Cents(x) == Round(x * 100.0) as real / 100.0
  {
  }

  // The entry at `k` is the average of bucket `b`, `n` hundredths
  ghost predicate StoredFor(json: Json, b: seq<Sample>, k: int, n: int) {
    && b != [] && k in json && json[k] == Average(n as real / 100.0)
    && |b| * k <= TimeSum(b) < |b| * (k + 1)
    && NearestHundredths(n, ValueSum(b) / |b| as real)
  }

  /** Every bucket is stored at the whole second its mean time falls into, with its mean in hundredths. */
  lemma EntryOfBucket(rows: seq<Row>, compression: nat, i: nat) returns (k: int, n: int)
    requires Ordered(rows) && i < |Buckets([], rows, compression)|
    ensures StoredFor(Finish(map[], [], rows, compression), Buckets([], rows, compression)[i], k, n)
  {
    HistoryOf(rows, compression);
    var b := Buckets([], rows, compression)[i];
    k, n := AverageFor(Finish(map[], [], rows, compression), b, compression);
  }

  lemma AverageFor(json: Json, b: seq<Sample>, compression: nat) returns (k: int, n: int)
    requires Spans(b, compression) && MeanTime(b) in json && json[MeanTime(b)] == AverageOf(b)
    ensures StoredFor(json, b, k, n)
  {
    TimeSumBounds(b, b[0].time, b[0].time + compression);
    ProductMonotone(0, b[0].time, |b|);
    MeanTimeIs(b);
    k, n := MeanTime(b), Round(Mean(b) * 100.0);
    RoundedIsNearest(Mean(b));
  }
}
