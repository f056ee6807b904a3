/** rdp on points in the plane. */
module RdpPoints {
  import opened RdpRecursion

  datatype Point = Point(x: real, y: real)

  function Product(a: real, b: real): real {
    a * b
  }

  function Quotient(a: real, n: real): real
    requires n != 0.0
  {
    a / n
  }

  lemma ProductPositive(a: real, b: real)
    requires a > 0.0 && b > 0.0
    ensures Product(a, b) > 0.0
  {
  }

  lemma ProductZero(a: real, b: real)
    requires Product(a, b) == 0.0
    ensures a == 0.0 || b == 0.0
  {
  }

  function Square(r: real): (s: real)
    ensures s >= 0.0
  {
    Product(r, r)
  }

  function NormSquare(v: Point): (s: real)
    ensures s >= 0.0
  {
    Square(v.x) + Square(v.y)
  }

  function Minus(p: Point, q: Point): Point {
    Point(p.x - q.x, p.y - q.y)
  }

  function Cross(v: Point, w: Point): real {
    v.x * w.y - w.x * v.y
  }

  lemma SquareOfOpposite(r: real)
    ensures Square(-r) == Square(r)
  {
  }

  lemma NormPositive(v: Point)
    requires v != Point(0.0, 0.0)
    ensures NormSquare(v) > 0.0
  {
    if NormSquare(v) == 0.0 {
      ProductZero(v.x, v.x);
      ProductZero(v.y, v.y);
    }
  }

  lemma QuotientSign(a: real, n: real)
    requires a >= 0.0 && n > 0.0
    ensures Quotient(a, n) >= 0.0 && (a == 0.0 ==> Quotient(a, n) == 0.0)
  {
  }

  /** distancePointToLine, squared. */
  function DistanceSquare(p: Point, start: Point, end: Point): (s: real)
    ensures s >= 0.0
  {
    if start == end then NormSquare(Minus(p, start))
    else
      var es := Minus(end, start);
      NormPositive(es);
      QuotientSign(Square(Cross(es, Minus(start, p))), NormSquare(es));
      Quotient(Square(Cross(es, Minus(start, p))), NormSquare(es))
  }

  // The point of the line through `start` and `end` at parameter `t`
  function OnLine(start: Point, end: Point, t: real): Point {
    Point(start.x + t * (end.x - start.x), start.y + t * (end.y - start.y))
  }

  lemma Lagrange(a: real, b: real, c: real, d: real)
    ensures Product(Square(c) + Square(d), Square(a) + Square(b)) == Square(a * d - c * b) + Square(a * c + b * d)
  {
  }

  function Dot(v: Point, w: Point): real {
    v.x * w.x + v.y * w.y
  }

  // How far t * v is from the projection of w, times the length of v, squared
  function Rest(v: Point, w: Point, t: real): (r: real)
    ensures r >= 0.0
  {
    Square(Dot(v, w) - t * NormSquare(v))
  }

  lemma CrossOfShifted(v: Point, w: Point, t: real)
    ensures v.x * (w.y - t * v.y) - (w.x - t * v.x) * v.y == Cross(v, w)
  {
  }

  lemma DotOfShifted(v: Point, w: Point, t: real)
    ensures v.x * (w.x - t * v.x) + v.y * (w.y - t * v.y) == Dot(v, w) - t * NormSquare(v)
  {
  }

  lemma SquareOfSame(a: real, b: real)
    requires a == b
    ensures Square(a) == Square(b)
  {
  }

  // The squared length of w - t * v, split along v
  lemma LineIdentity(v: Point, w: Point, t: real)
    ensures Product(NormSquare(Point(w.x - t * v.x, w.y - t * v.y)), NormSquare(v))
         == Square(Cross(v, w)) + Rest(v, w, t)
  {
    var c, d := w.x - t * v.x, w.y - t * v.y;
    Lagrange(v.x, v.y, c, d);
    CrossOfShifted(v, w, t);
    SquareOfSame(v.x * d - c * v.y, Cross(v, w));
    DotOfShifted(v, w, t);
    SquareOfSame(v.x * c + v.y * d, Dot(v, w) - t * NormSquare(v));
  }

  /** The squared distance is the least one from the point to any point of the line, and it is attained. */
  lemma DistanceIsLeast(p: Point, start: Point, end: Point, t: real)
    ensures DistanceSquare(p, start, end) <= NormSquare(Minus(p, OnLine(start, end, t)))
    ensures exists s: real :: DistanceSquare(p, start, end) == NormSquare(Minus(p, OnLine(start, end, s)))
  {
    if start == end {
      assert OnLine(start, end, t) == start;
      assert DistanceSquare(p, start, end) == NormSquare(Minus(p, OnLine(start, end, t)));
    } else {
      var v, w := Minus(end, start), Minus(p, start);
      DistanceOnLine(p, start, end, t);
      var s := Dot(v, w) / NormSquare(v);
      DistanceOnLine(p, start, end, s);
      assert s * NormSquare(v) == Dot(v, w);
      assert Rest(v, w, s) == 0.0;
      QuotientSign(0.0, NormSquare(v));
      assert DistanceSquare(p, start, end) == NormSquare(Minus(p, OnLine(start, end, s)));
    }
  }

  lemma DistanceOnLine(p: Point, start: Point, end: Point, t: real)
    requires start != end
    ensures var v, w := Minus(end, start), Minus(p, start);
      && NormSquare(v) > 0.0
      && NormSquare(Minus(p, OnLine(start, end, t)))
           == DistanceSquare(p, start, end) + Quotient(Rest(v, w, t), NormSquare(v))
      && Quotient(Rest(v, w, t), NormSquare(v)) >= 0.0
  {
    var v, w := Minus(end, start), Minus(p, start);
    DistanceFormula(p, start, end);
    LineIdentity(v, w, t);
    assert Minus(p, OnLine(start, end, t)) == Point(w.x - t * v.x, w.y - t * v.y);
    SplitQuotient(NormSquare(Minus(p, OnLine(start, end, t))), NormSquare(v), Square(Cross(v, w)), Rest(v, w, t));
  }

  lemma SplitQuotient(a: real, n: real, b: real, c: real)
    requires n > 0.0 && Product(a, n) == b + c && c >= 0.0
    ensures a == Quotient(b, n) + Quotient(c, n) && Quotient(c, n) >= 0.0
  {
    assert b / n + c / n == (b + c) / n;
  }

  lemma DistanceFormula(p: Point, start: Point, end: Point)
    requires start != end
    ensures var v := Minus(end, start);
      NormSquare(v) > 0.0 && DistanceSquare(p, start, end) == Quotient(Square(Cross(v, Minus(p, start))), NormSquare(v))
  {
    NormPositive(Minus(end, start));
    SameCross(Minus(end, start), Minus(p, start), Minus(start, p));
  }

  lemma SameCross(v: Point, w: Point, opposite: Point)
    requires opposite == Point(-w.x, -w.y)
    ensures Square(Cross(v, opposite)) == Square(Cross(v, w))
  {
    assert v.x * (-w.y) == -(v.x * w.y) && (-w.x) * v.y == -(w.x * v.y);
    SquareOfOpposite(Cross(v, w));
  }

  // ---------- the algorithm ----------

  predicate InRange(s: seq<int>, n: nat) {
    forall i :: 0 <= i < |s| ==> 0 <= s[i] < n
  }

  function Pick<T>(data: seq<T>, s: seq<int>): (r: seq<T>)
    requires InRange(s, |data|)
    ensures |r| == |s| && forall i :: 0 <= i < |s| ==> r[i] == data[s[i]]
  {
    seq(|s|, i requires 0 <= i < |s| => data[s[i]])
  }

  function Range(from: int, to: int): (r: seq<int>)
    requires from <= to
    ensures |r| == to - from && forall i :: 0 <= i < |r| ==> r[i] == from + i
  {
    seq(to - from, i => from + i)
  }

  // The distance between points given by index
  function ByIndex(data: seq<Point>): Distance {
    (x: int, a: int, b: int) =>
      if 0 <= x < |data| && 0 <= a < |data| && 0 <= b < |data| then DistanceSquare(data[x], data[a], data[b]) else 0.0
  }

  // Indices kept of the half-open range from `start` to `end`
  function KeptIndices(data: seq<Point>, start: nat, end: nat, epsilon: real): seq<int>
    requires start <= end <= |data| && epsilon >= 0.0
  {
    Kept(Range(start, end), ByIndex(data), Square(epsilon))
  }

  lemma KeptInRange(data: seq<Point>, start: nat, end: nat, epsilon: real)
    requires start <= end <= |data| && epsilon >= 0.0
    ensures InRange(KeptIndices(data, start, end, epsilon), |data|)
    ensures Ascending(KeptIndices(data, start, end, epsilon))
  {
    KeptIsSubsequence(Range(start, end), ByIndex(data), Square(epsilon));
    var kept := KeptIndices(data, start, end, epsilon);
    forall i | 0 <= i < |kept|
      ensures 0 <= kept[i] < |data|
    {
      assert kept[i] in Range(start, end);
    }
  }

  // rdp of all the points
  function Reduce(data: seq<Point>, epsilon: real): seq<Point>
    requires epsilon >= 0.0
  {
    KeptInRange(data, 0, |data|, epsilon);
    Pick(data, KeptIndices(data, 0, |data|, epsilon))
  }

  lemma PickJoin<T>(data: seq<T>, left: seq<int>, right: seq<int>)
    requires InRange(left, |data|) && InRange(right, |data|) && |left| > 0
    ensures InRange(Join(left, right), |data|)
    ensures Pick(data, left)[..|left| - 1] + Pick(data, right) == Pick(data, Join(left, right))
  {
  }

  // A range `s` that splits at index `m` into `a` and `b`
  lemma KeptOfRange(
    d: Distance, start: nat, end: nat, eps: real, m: nat, s: seq<int>, a: seq<int>, b: seq<int>)
    requires start <= m < end && eps >= 0.0 && end - start >= 3
    requires s == Range(start, end) && a == Range(start, m + 1) && b == Range(m, end)
    requires Farthest(s, d, end - start - 1).0 == m - start && Farthest(s, d, end - start - 1).1 > eps
    ensures start < m < end - 1
    ensures |Kept(a, d, eps)| > 0 && Kept(s, d, eps) == Join(Kept(a, d, eps), Kept(b, d, eps))
  {
    RangeSlices(start, end, m);
    KeptOfSlices(s, d, eps, a, b);
  }

  lemma KeptOfSlices(s: seq<int>, d: Distance, eps: real, a: seq<int>, b: seq<int>)
    requires eps >= 0.0 && Splits(s, d, eps)
    requires a == s[..Cut(s, d, eps) + 1] && b == s[Cut(s, d, eps)..]
    ensures |Kept(a, d, eps)| > 0 && Kept(s, d, eps) == Join(Kept(a, d, eps), Kept(b, d, eps))
  {
    var p, _, _ := SplitStep(s, d, eps);
  }

  lemma RangeSlices(start: nat, end: nat, m: nat)
    requires start <= m < end
    ensures Range(start, end)[..m - start + 1] == Range(start, m + 1)
    ensures Range(start, end)[m - start..] == Range(m, end)
  {
  }

  // The scan of a range of points up to position `k`
  ghost function Scan(data: seq<Point>, start: nat, end: nat, k: nat): (nat, real)
    requires start + k < end <= |data|
  {
    Farthest(Range(start, end), ByIndex(data), k)
  }

  lemma ScanStep(data: seq<Point>, start: nat, end: nat, k: nat)
    requires 1 <= k && start + k + 1 < end <= |data|
    ensures
      var far := Scan(data, start, end, k);
      var dist := DistanceSquare(data[start + k], data[start], data[end - 1]);
      Scan(data, start, end, k + 1) == if dist > far.1 then (k, dist) else far
  {
  }

  // The loop of rdp over the points between the first and the last
  method FarthestPoint(data: seq<Point>, start: nat, end: nat) returns (maxElement: nat, dmax: real)
    requires start + 3 <= end <= |data|
    ensures start <= maxElement < end
    ensures Scan(data, start, end, end - start - 1) == (maxElement - start, dmax)
  {
    dmax := 0.0;
    maxElement := start;
    for it := start + 1 to end - 1
      invariant start <= maxElement < it
      invariant Scan(data, start, end, it - start) == (maxElement - start, dmax)
    {
      var dist := DistanceSquare(data[it], data[start], data[end - 1]);
      ScanStep(data, start, end, it - start);
      if dist > dmax {
        maxElement := it;
        dmax := dist;
      }
    }
  }

  // What rdp keeps of a range whose scan finds index `m`: the results of the two halves put together
  lemma SplitRange(data: seq<Point>, start: nat, end: nat, epsilon: real, m: nat, dmax: real)
    requires start + 3 <= end <= |data| && epsilon >= 0.0 && start <= m < end && dmax > Square(epsilon)
    requires Scan(data, start, end, end - start - 1) == (m - start, dmax)
    ensures start < m < end - 1
    ensures InRange(KeptIndices(data, start, m + 1, epsilon), |data|) && |KeptIndices(data, start, m + 1, epsilon)| > 0
    ensures InRange(KeptIndices(data, m, end, epsilon), |data|)
    ensures InRange(KeptIndices(data, start, end, epsilon), |data|)
    ensures
      var left := Pick(data, KeptIndices(data, start, m + 1, epsilon));
      Pick(data, KeptIndices(data, start, end, epsilon))
        == left[..|left| - 1] + Pick(data, KeptIndices(data, m, end, epsilon))
  {
    var s, a, b, d := Range(start, end), Range(start, m + 1), Range(m, end), ByIndex(data);
    KeptOfRange(d, start, end, Square(epsilon), m, s, a, b);
    KeptInRange(data, start, m + 1, epsilon);
    KeptInRange(data, m, end, epsilon);
    PickJoin(data, Kept(a, d, Square(epsilon)), Kept(b, d, Square(epsilon)));
  }

  // ... and of a range that is not split
  lemma WholeRange(data: seq<Point>, start: nat, end: nat, epsilon: real)
    requires start <= end <= |data| && epsilon >= 0.0
    requires start + 3 <= end ==> Scan(data, start, end, end - start - 1).1 <= Square(epsilon)
    ensures KeptIndices(data, start, end, epsilon)
         == if end - start < 3 then Range(start, end) else [start, end - 1]
  {
  }

  /** rdp as it runs: the scan for the farthest point, the two halves, and their results put together. Distances are
      compared by their squares. */
  method Rdp(data: seq<Point>, start: nat, end: nat, epsilon: real) returns (result: seq<Point>)
    requires start <= end <= |data| && epsilon >= 0.0
    ensures InRange(KeptIndices(data, start, end, epsilon), |data|)
    ensures result == Pick(data, KeptIndices(data, start, end, epsilon))
    decreases end - start, 1
  {
    if end - start < 3 {
      WholeRange(data, start, end, epsilon);
      return data[start..end];
    }
    var maxElement, dmax := FarthestPoint(data, start, end);
    if dmax > Square(epsilon) {
      result := RdpHalves(data, start, end, epsilon, maxElement, dmax);
    } else {
      WholeRange(data, start, end, epsilon);
      result := [data[start], data[end - 1]];
    }
  }

  // The recursive calls of rdp; the point both results share is taken out of the first
  method RdpHalves(data: seq<Point>, start: nat, end: nat, epsilon: real, maxElement: nat, ghost dmax: real)
    returns (result: seq<Point>)
    requires start + 3 <= end <= |data| && epsilon >= 0.0 && start <= maxElement < end && dmax > Square(epsilon)
    requires Scan(data, start, end, end - start - 1) == (maxElement - start, dmax)
    ensures InRange(KeptIndices(data, start, end, epsilon), |data|)
    ensures result == Pick(data, KeptIndices(data, start, end, epsilon))
    decreases end - start, 0
  {
    SplitRange(data, start, end, epsilon, maxElement, dmax);
    result := Rdp(data, start, maxElement + 1, epsilon);
    result := result[..|result| - 1];
    var temp := Rdp(data, maxElement, end, epsilon);
    result := result + temp;
  }

  // ---------- what the result is ----------

  lemma SquareOrder(a: real, b: real)
    requires a >= 0.0 && b >= 0.0
    ensures a <= b <==> Square(a) <= Square(b)
  {
    DifferenceOfSquares(a, b);
    if a < b {
      ProductPositive(b - a, b + a);
    } else if b < a {
      ProductPositive(a - b, a + b);
      DifferenceOfSquares(b, a);
    }
  }

  lemma DifferenceOfSquares(a: real, b: real)
    ensures Square(b) - Square(a) == Product(b - a, b + a)
  {
  }

  // Every point dropped between two kept ones is within epsilon of the line through them
  ghost predicate DroppedAreNear(data: seq<Point>, epsilon: real, kept: seq<int>)
    requires InRange(kept, |data|)
  {
    forall i, x, distance: real ::
      0 <= i < |kept| - 1 && kept[i] < x < kept[i + 1] && distance >= 0.0
      && Square(distance) == DistanceSquare(data[x], data[kept[i]], data[kept[i + 1]])
      ==> distance <= epsilon
  }

  /** The result is a subsequence with the first and the last point, and every dropped point is within epsilon of the
      line through the two kept points around it. */
  lemma ReducedWithin(data: seq<Point>, epsilon: real)
    requires epsilon >= 0.0
    ensures var kept := KeptIndices(data, 0, |data|, epsilon);
      && InRange(kept, |data|) && Ascending(kept) && Reduce(data, epsilon) == Pick(data, kept)
      && (|data| > 0 ==> |kept| > 0 && kept[0] == 0 && kept[|kept| - 1] == |data| - 1)
      && DroppedAreNear(data, epsilon, kept)
  {
    KeptInRange(data, 0, |data|, epsilon);
    KeptBothEnds(data, epsilon, KeptIndices(data, 0, |data|, epsilon));
    AllDroppedAreNear(data, epsilon, KeptIndices(data, 0, |data|, epsilon));
  }

  lemma KeptBothEnds(data: seq<Point>, epsilon: real, kept: seq<int>)
    requires epsilon >= 0.0 && kept == KeptIndices(data, 0, |data|, epsilon)
    ensures |data| > 0 ==> |kept| > 0 && kept[0] == 0 && kept[|kept| - 1] == |data| - 1
  {
    if |data| > 0 {
      KeptEnds(Range(0, |data|), ByIndex(data), Square(epsilon));
    }
  }

  lemma AllDroppedAreNear(data: seq<Point>, epsilon: real, kept: seq<int>)
    requires epsilon >= 0.0 && kept == KeptIndices(data, 0, |data|, epsilon) && InRange(kept, |data|)
    requires Ascending(kept)
    ensures DroppedAreNear(data, epsilon, kept)
  {
    forall i, x, distance: real |
      0 <= i < |kept| - 1 && kept[i] < x < kept[i + 1] && distance >= 0.0
      && Square(distance) == DistanceSquare(data[x], data[kept[i]], data[kept[i + 1]])
      ensures distance <= epsilon
    {
      DroppedPointWithin(data, epsilon, kept, i, x, distance);
    }
  }

  lemma DroppedPointWithin(data: seq<Point>, epsilon: real, kept: seq<int>, i: int, x: int, distance: real)
    requires epsilon >= 0.0 && kept == KeptIndices(data, 0, |data|, epsilon) && InRange(kept, |data|)
    requires 0 <= i < |kept| - 1 && kept[i] < x < kept[i + 1] && distance >= 0.0
    requires Square(distance) == DistanceSquare(data[x], data[kept[i]], data[kept[i + 1]])
    ensures distance <= epsilon
  {
    var s := Range(0, |data|);
    DroppedWithin(s, ByIndex(data), Square(epsilon));
    assert s[x] == x;
    WithinAt(s, ByIndex(data), Square(epsilon), kept, i, x);
    SquareOrder(distance, epsilon);
  }

  lemma WithinAt(s: seq<int>, d: Distance, eps: real, kept: seq<int>, i: int, x: int)
    requires Within(s, d, eps, kept) && 0 <= i < |kept| - 1 && x in s && kept[i] < x < kept[i + 1]
    ensures d(x, kept[i], kept[i + 1]) <= eps
  {
  }

  /** A larger epsilon keeps a subset of the points a smaller one keeps. */
  lemma ReducedMonotone(data: seq<Point>, small: real, large: real)
    requires 0.0 <= small <= large
    ensures forall i ::
      i in KeptIndices(data, 0, |data|, large) ==> i in KeptIndices(data, 0, |data|, small)
  {
    SquareOrder(small, large);
    KeptMonotone(Range(0, |data|), ByIndex(data), Square(small), Square(large));
  }

  // `e` is the distance `d` has between the indices `kept` stands for
  ghost predicate Reindexes(d: Distance, e: Distance, kept: seq<int>) {
    forall x, a, b :: 0 <= x < |kept| && 0 <= a < |kept| && 0 <= b < |kept| ==>
      e(x, a, b) == d(kept[x], kept[a], kept[b])
  }

  // Scanning picked indices is scanning their positions
  lemma {:induction false} FarthestOfPicked(d: Distance, e: Distance, kept: seq<int>, s: seq<int>, k: nat)
    requires Reindexes(d, e, kept) && InRange(s, |kept|) && k < |s|
    ensures Farthest(Pick(kept, s), d, k) == Farthest(s, e, k)
  {
    if k > 1 {
      FarthestOfPicked(d, e, kept, s, k - 1);
      assert e(s[k - 1], s[0], s[|s| - 1]) == d(kept[s[k - 1]], kept[s[0]], kept[s[|s| - 1]]);
    }
  }

  // Reducing picked indices `u` is reducing their positions `s`
  lemma {:induction false} KeptOfPicked(d: Distance, e: Distance, kept: seq<int>, s: seq<int>, eps: real, u: seq<int>)
    requires Reindexes(d, e, kept) && InRange(s, |kept|) && Ascending(s) && eps >= 0.0 && u == Pick(kept, s)
    ensures InRange(Kept(s, e, eps), |kept|)
    ensures Kept(u, d, eps) == Pick(kept, Kept(s, e, eps))
    decreases |s|, 1
  {
    if |s| > 0 {
      FarthestOfPicked(d, e, kept, s, |s| - 1);
    }
    if Splits(s, e, eps) {
      PickedSplit(d, e, kept, s, eps, u, Cut(s, e, eps));
    } else {
      PickedEnds(d, e, kept, s, eps, u);
    }
  }

  // ... when they split at position `p`
  lemma {:induction false} PickedSplit(
    d: Distance, e: Distance, kept: seq<int>, s: seq<int>, eps: real, u: seq<int>, p: nat)
    requires Reindexes(d, e, kept) && InRange(s, |kept|) && Ascending(s) && eps >= 0.0 && u == Pick(kept, s)
    requires Splits(s, e, eps) && p == Cut(s, e, eps) && Farthest(u, d, |u| - 1) == Farthest(s, e, |s| - 1)
    ensures InRange(Kept(s, e, eps), |kept|)
    ensures Kept(u, d, eps) == Pick(kept, Kept(s, e, eps))
    decreases |s|, 0
  {
    var sl, sr, ul, ur := s[..p + 1], s[p..], u[..p + 1], u[p..];
    PickSlices(kept, s, p);
    KeptOfPicked(d, e, kept, sl, eps, ul);
    KeptOfPicked(d, e, kept, sr, eps, ur);
    PickedHalves(d, e, kept, eps, p, s, sl, sr, u, ul, ur);
  }

  lemma PickedEnds(d: Distance, e: Distance, kept: seq<int>, s: seq<int>, eps: real, u: seq<int>)
    requires InRange(s, |kept|) && eps >= 0.0 && u == Pick(kept, s) && !Splits(s, e, eps) && !Splits(u, d, eps)
    ensures InRange(Kept(s, e, eps), |kept|) && Kept(u, d, eps) == Pick(kept, Kept(s, e, eps))
  {
  }

  lemma PickJoins(kept: seq<int>, left: seq<int>, right: seq<int>)
    requires InRange(left, |kept|) && InRange(right, |kept|) && |left| > 0
    ensures InRange(Join(left, right), |kept|)
    ensures Join(Pick(kept, left), Pick(kept, right)) == Pick(kept, Join(left, right))
  {
  }

  // `s` splits at `p` into `sl` and `sr`, and `u`, which it stands for, into `ul` and `ur`
  lemma PickedHalves(
    d: Distance, e: Distance, kept: seq<int>, eps: real, p: nat,
    s: seq<int>, sl: seq<int>, sr: seq<int>, u: seq<int>, ul: seq<int>, ur: seq<int>)
    requires eps >= 0.0 && Splits(s, e, eps) && p == Cut(s, e, eps)
    requires |u| == |s| && Farthest(u, d, |u| - 1) == Farthest(s, e, |s| - 1)
    requires sl == s[..p + 1] && sr == s[p..] && ul == u[..p + 1] && ur == u[p..]
    requires InRange(Kept(sl, e, eps), |kept|) && Kept(ul, d, eps) == Pick(kept, Kept(sl, e, eps))
    requires InRange(Kept(sr, e, eps), |kept|) && Kept(ur, d, eps) == Pick(kept, Kept(sr, e, eps))
    ensures InRange(Kept(s, e, eps), |kept|) && Kept(u, d, eps) == Pick(kept, Kept(s, e, eps))
  {
    KeptOfSlices(s, e, eps, sl, sr);
    KeptOfSlices(u, d, eps, ul, ur);
    PickJoins(kept, Kept(sl, e, eps), Kept(sr, e, eps));
  }

  lemma PickSlices(kept: seq<int>, s: seq<int>, p: nat)
    requires InRange(s, |kept|) && p < |s|
    ensures Pick(kept, s)[..p + 1] == Pick(kept, s[..p + 1]) && Pick(kept, s)[p..] == Pick(kept, s[p..])
  {
  }

  /** Reducing a reduced line again changes nothing. */
  lemma ReducedIdempotent(data: seq<Point>, epsilon: real)
    requires epsilon >= 0.0
    ensures Reduce(Reduce(data, epsilon), epsilon) == Reduce(data, epsilon)
  {
    var kept := KeptIndices(data, 0, |data|, epsilon);
    KeptInRange(data, 0, |data|, epsilon);
    KeptTwice(data, epsilon, kept, Pick(data, kept));
  }

  lemma KeptTwice(data: seq<Point>, epsilon: real, kept: seq<int>, reduced: seq<Point>)
    requires epsilon >= 0.0 && kept == KeptIndices(data, 0, |data|, epsilon)
    requires InRange(kept, |data|) && Ascending(kept) && reduced == Pick(data, kept)
    ensures Reduce(reduced, epsilon) == reduced
  {
    var s, d := Range(0, |data|), ByIndex(data);
    KeptIsSubsequence(s, d, Square(epsilon));
    KeptIsRobust(s, d, Square(epsilon), kept);
    KeptOfAll(d, ByIndex(reduced), kept, Square(epsilon));
    var inner := KeptIndices(reduced, 0, |reduced|, epsilon);
    KeptInRange(reduced, 0, |reduced|, epsilon);
    PickTwice(data, kept, inner);
  }

  lemma KeptOfAll(d: Distance, e: Distance, kept: seq<int>, eps: real)
    requires Reindexes(d, e, kept) && eps >= 0.0
    ensures var inner := Kept(Range(0, |kept|), e, eps);
      InRange(inner, |kept|) && Pick(kept, inner) == Kept(kept, d, eps)
  {
    assert Pick(kept, Range(0, |kept|)) == kept;
    KeptOfPicked(d, e, kept, Range(0, |kept|), eps, kept);
  }

  lemma PickTwice(data: seq<Point>, kept: seq<int>, inner: seq<int>)
    requires InRange(kept, |data|) && InRange(inner, |kept|) && Pick(kept, inner) == kept
    ensures Pick(Pick(data, kept), inner) == Pick(data, kept)
  {
    var twice := Pick(Pick(data, kept), inner);
    assert forall i :: 0 <= i < |inner| ==> twice[i] == data[Pick(kept, inner)[i]];
  }
}
