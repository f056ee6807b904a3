/** Ramer-Douglas-Peucker reduction (backend/utility/RDPAlgorithm.h). The recursion is studied on the indices of the
    points, for any distance; the distance to a line is compared by its square, which orders the same. */
module RdpRecursion {

  // `d(x, a, b)`: distance of point x from the line through points a and b, all given by index
  type Distance = (int, int, int) -> real

  // ---------- the recursion on indices ----------

  /** The scan over the inner points at positions 1..k-1: the first position with the greatest distance and that
      distance, or position 0 and distance 0. */
  function Farthest(s: seq<int>, d: Distance, k: nat): (r: (nat, real))
    requires k < |s|
    ensures r.0 < |s|
  {
    if k <= 1 then (0, 0.0)
    else
      var (p, m) := Farthest(s, d, k - 1);
      var v := d(s[k - 1], s[0], s[|s| - 1]);
      if v > m then (k - 1, v) else (p, m)
  }

  lemma {:induction false} FarthestIsMax(s: seq<int>, d: Distance, k: nat)
    requires k < |s|
    ensures var (p, m) := Farthest(s, d, k);
      && m >= 0.0
      && (forall j :: 1 <= j < k ==> d(s[j], s[0], s[|s| - 1]) <= m)
      && (m > 0.0 ==> 1 <= p < k && d(s[p], s[0], s[|s| - 1]) == m)
      && (forall j :: 1 <= j < p ==> d(s[j], s[0], s[|s| - 1]) < m)
      && (m == 0.0 ==> p == 0)
  {
    if k > 1 {
      FarthestIsMax(s, d, k - 1);
    }
  }

  predicate Splits(s: seq<int>, d: Distance, eps: real) {
    |s| >= 3 && Farthest(s, d, |s| - 1).1 > eps
  }

  // Position of the farthest point of a range that splits
  function Cut(s: seq<int>, d: Distance, eps: real): (p: nat)
    requires eps >= 0.0 && Splits(s, d, eps)
    ensures 1 <= p < |s| - 1
  {
    FarthestIsMax(s, d, |s| - 1);
    Farthest(s, d, |s| - 1).0
  }

  // Two results that share a point, joined: pop_back, then insert
  function Join(left: seq<int>, right: seq<int>): seq<int> {
    if left == [] then right else left[..|left| - 1] + right
  }

  /** The indices rdp keeps. */
  function Kept(s: seq<int>, d: Distance, eps: real): seq<int>
    requires eps >= 0.0
    decreases |s|
  {
    if |s| < 3 then s
    else if Splits(s, d, eps) then
      var p := Cut(s, d, eps);
      Join(Kept(s[..p + 1], d, eps), Kept(s[p..], d, eps))
    else [s[0], s[|s| - 1]]
  }

  /** The first and the last point are kept. */
  lemma {:induction false} KeptEnds(s: seq<int>, d: Distance, eps: real)
    requires eps >= 0.0 && |s| > 0
    ensures var r := Kept(s, d, eps); |r| > 0 && r[0] == s[0] && r[|r| - 1] == s[|s| - 1]
    ensures |s| >= 2 ==> |Kept(s, d, eps)| >= 2
    decreases |s|
  {
    if Splits(s, d, eps) {
      var p := Cut(s, d, eps);
      KeptEnds(s[..p + 1], d, eps);
      KeptEnds(s[p..], d, eps);
    }
  }

  // One step of the recursion, with the two results it joins
  lemma SplitStep(s: seq<int>, d: Distance, eps: real) returns (p: nat, left: seq<int>, right: seq<int>)
    requires eps >= 0.0 && Splits(s, d, eps)
    ensures p == Cut(s, d, eps)
    ensures left == Kept(s[..p + 1], d, eps) && right == Kept(s[p..], d, eps)
    ensures |left| > 0 && |right| > 0 && left[|left| - 1] == s[p] == right[0]
    ensures Kept(s, d, eps) == Join(left, right)
  {
    p := Cut(s, d, eps);
    KeptEnds(s[..p + 1], d, eps);
    KeptEnds(s[p..], d, eps);
    left, right := Kept(s[..p + 1], d, eps), Kept(s[p..], d, eps);
  }

  // Position `p` is the first inner one with the greatest distance from the line through the ends
  ghost predicate IsFarthest(s: seq<int>, d: Distance, p: nat) {
    && 1 <= p < |s| - 1
    && (forall j :: 1 <= j < |s| - 1 ==> d(s[j], s[0], s[|s| - 1]) <= d(s[p], s[0], s[|s| - 1]))
    && (forall j :: 1 <= j < p ==> d(s[j], s[0], s[|s| - 1]) < d(s[p], s[0], s[|s| - 1]))
  }

  lemma {:induction false} FarthestFound(s: seq<int>, d: Distance, p: nat)
    requires IsFarthest(s, d, p)
    ensures d(s[p], s[0], s[|s| - 1]) > 0.0 ==> Farthest(s, d, |s| - 1) == (p, d(s[p], s[0], s[|s| - 1]))
    ensures d(s[p], s[0], s[|s| - 1]) <= 0.0 ==> Farthest(s, d, |s| - 1).1 == 0.0
  {
    FarthestIsMax(s, d, |s| - 1);
  }

  /** What is kept: only the ends if the farthest point is within epsilon, otherwise what is kept of the points up to it
      and of those from it on, with that point once. */
  lemma {:induction false} KeptOfFarthest(s: seq<int>, d: Distance, eps: real, p: nat)
    requires eps >= 0.0 && IsFarthest(s, d, p)
    ensures d(s[p], s[0], s[|s| - 1]) <= eps ==> Kept(s, d, eps) == [s[0], s[|s| - 1]]
    ensures d(s[p], s[0], s[|s| - 1]) > eps ==>
      var left, right := Kept(s[..p + 1], d, eps), Kept(s[p..], d, eps);
      |left| > 0 && left[|left| - 1] == s[p] && Kept(s, d, eps) == left[..|left| - 1] + right
  {
    FarthestFound(s, d, p);
    if Splits(s, d, eps) {
      KeptJoined(s, d, eps, p);
    }
  }

  lemma {:induction false} KeptJoined(s: seq<int>, d: Distance, eps: real, p: nat)
    requires eps >= 0.0 && Splits(s, d, eps) && Farthest(s, d, |s| - 1).0 == p && p < |s|
    ensures var left, right := Kept(s[..p + 1], d, eps), Kept(s[p..], d, eps);
      |left| > 0 && left[|left| - 1] == s[p] && Kept(s, d, eps) == left[..|left| - 1] + right
  {
    var q, left, right := SplitStep(s, d, eps);
    assert q == p;
  }

  ghost predicate Ascending(s: seq<int>) {
    forall i, j :: 0 <= i < j < |s| ==> s[i] < s[j]
  }

  /** The kept indices are a subsequence. */
  lemma {:induction false} KeptIsSubsequence(s: seq<int>, d: Distance, eps: real)
    requires eps >= 0.0 && Ascending(s)
    ensures Ascending(Kept(s, d, eps)) && forall x :: x in Kept(s, d, eps) ==> x in s
    decreases |s|
  {
    if Splits(s, d, eps) {
      var p, left, right := SplitStep(s, d, eps);
      KeptIsSubsequence(s[..p + 1], d, eps);
      KeptIsSubsequence(s[p..], d, eps);
      KeptJoin(s, p, left, right);
      assert forall x :: x in s[..p + 1] || x in s[p..] ==> x in s;
    } else {
      assert Kept(s, d, eps) == if |s| < 3 then s else [s[0], s[|s| - 1]];
    }
  }

  // Two subsequences that meet at position `p`, joined
  lemma KeptJoin(s: seq<int>, p: nat, left: seq<int>, right: seq<int>)
    requires Ascending(s) && p < |s| && Ascending(left) && Ascending(right)
    requires |left| > 0 && |right| > 0 && left[|left| - 1] == s[p] == right[0]
    requires (forall x :: x in left ==> x in s[..p + 1]) && (forall x :: x in right ==> x in s[p..])
    ensures var r := Join(left, right);
      && Ascending(r) && forall x :: x in r <==> x in left || x in right
  {
  }

  // Every index strictly between two neighbours in `kept` is within `eps` of the line through them
  ghost predicate Within(s: seq<int>, d: Distance, eps: real, kept: seq<int>) {
    forall i, x :: 0 <= i < |kept| - 1 && x in s && kept[i] < x < kept[i + 1] ==> d(x, kept[i], kept[i + 1]) <= eps
  }

  /** Every dropped point is within epsilon of the line through the two kept points around it. */
  lemma {:induction false} DroppedWithin(s: seq<int>, d: Distance, eps: real)
    requires eps >= 0.0 && Ascending(s)
    ensures Within(s, d, eps, Kept(s, d, eps))
    decreases |s|
  {
    if Splits(s, d, eps) {
      var p, left, right := SplitStep(s, d, eps);
      KeptIsSubsequence(s[..p + 1], d, eps);
      KeptIsSubsequence(s[p..], d, eps);
      DroppedWithin(s[..p + 1], d, eps);
      DroppedWithin(s[p..], d, eps);
      WithinJoin(s, d, eps, p, left, right);
    } else {
      UnsplitWithin(s, d, eps);
    }
  }

  lemma UnsplitWithin(s: seq<int>, d: Distance, eps: real)
    requires eps >= 0.0 && Ascending(s) && !Splits(s, d, eps)
    ensures Within(s, d, eps, Kept(s, d, eps))
  {
    if |s| >= 3 {
      FarthestIsMax(s, d, |s| - 1);
    }
  }

  lemma WithinJoin(s: seq<int>, d: Distance, eps: real, p: nat, left: seq<int>, right: seq<int>)
    requires Ascending(s) && p < |s| && Ascending(left) && Ascending(right)
    requires |left| > 0 && |right| > 0 && left[|left| - 1] == s[p] == right[0]
    requires Within(s[..p + 1], d, eps, left) && Within(s[p..], d, eps, right)
    ensures Within(s, d, eps, Join(left, right))
  {
    var r := Join(left, right);
    forall i, x | 0 <= i < |r| - 1 && x in s && r[i] < x < r[i + 1]
      ensures d(x, r[i], r[i + 1]) <= eps
    {
      var j :| 0 <= j < |s| && s[j] == x;
      if i < |left| - 1 {
        assert r[i] == left[i] && r[i + 1] == left[i + 1];
        assert left[i + 1] <= s[p];
        assert x == s[..p + 1][j];
        assert x in s[..p + 1];
      } else {
        var k := i - (|left| - 1);
        assert r[i] == right[k] && r[i + 1] == right[k + 1];
        assert right[0] <= right[k];
        assert x == s[p..][j - p];
        assert x in s[p..];
      }
    }
  }

  /** A larger epsilon keeps a subset. */
  lemma {:induction false} KeptMonotone(s: seq<int>, d: Distance, small: real, large: real)
    requires 0.0 <= small <= large && Ascending(s)
    ensures forall x :: x in Kept(s, d, large) ==> x in Kept(s, d, small)
    decreases |s|
  {
    if Splits(s, d, large) {
      var p, _, _ := SplitStep(s, d, large);
      KeptMonotone(s[..p + 1], d, small, large);
      KeptMonotone(s[p..], d, small, large);
      KeptOfSplit(s, d, small);
      KeptOfSplit(s, d, large);
    } else if |s| >= 3 {
      KeptEnds(s, d, small);
      assert Kept(s, d, large) == [s[0], s[|s| - 1]];
    }
  }

  // The members of a split result are those of its halves, the ends among them
  lemma KeptOfSplit(s: seq<int>, d: Distance, eps: real)
    requires eps >= 0.0 && Ascending(s) && Splits(s, d, eps)
    ensures var p := Cut(s, d, eps);
      && (forall x :: x in Kept(s, d, eps) <==> x in Kept(s[..p + 1], d, eps) || x in Kept(s[p..], d, eps))
      && s[p] in Kept(s, d, eps)
  {
    var p, left, right := SplitStep(s, d, eps);
    KeptIsSubsequence(s[..p + 1], d, eps);
    KeptIsSubsequence(s[p..], d, eps);
    KeptJoin(s, p, left, right);
    assert right[0] in right;
  }

  // ---------- dropping points that would be dropped anyway ----------

  ghost predicate Between(kept: seq<int>, u: seq<int>, s: seq<int>) {
    && Ascending(u)
    && (forall x :: x in kept ==> x in u)
    && (forall x :: x in u ==> x in s)
  }

  // The farthest point does not change while it and only points of `s` are there
  lemma FarthestOfPart(s: seq<int>, d: Distance, u: seq<int>)
    requires Ascending(s) && |s| >= 3
    requires Between([], u, s) && |u| >= 2 && u[0] == s[0] && u[|u| - 1] == s[|s| - 1]
    ensures var (p, m) := Farthest(s, d, |s| - 1); var (q, n) := Farthest(u, d, |u| - 1);
      n <= m && (m > 0.0 && s[p] in u ==> n == m && u[q] == s[p])
  {
    FarthestIsMax(s, d, |s| - 1);
    FarthestIsMax(u, d, |u| - 1);
    var (p, m) := Farthest(s, d, |s| - 1);
    var (q, n) := Farthest(u, d, |u| - 1);
    if m > 0.0 && s[p] in u {
      FarthestAtLeast(s, d, u, p, n);
    }
    if n > 0.0 {
      assert u[q] in u;
      var j :| 0 <= j < |s| && s[j] == u[q];
      assert d(s[j], s[0], s[|s| - 1]) == n;
      if m > 0.0 && s[p] in u {
        FirstFarthest(s, d, u, p, q, m, n);
      }
    }
  }

  lemma FarthestAtLeast(s: seq<int>, d: Distance, u: seq<int>, p: nat, n: real)
    requires Ascending(s) && 1 <= p < |s| - 1 && s[p] in u && |u| >= 2
    requires u[0] == s[0] && u[|u| - 1] == s[|s| - 1]
    requires forall j :: 1 <= j < |u| - 1 ==> d(u[j], u[0], u[|u| - 1]) <= n
    ensures d(s[p], s[0], s[|s| - 1]) <= n
  {
    var i :| 0 <= i < |u| && u[i] == s[p];
  }

  lemma FirstFarthest(s: seq<int>, d: Distance, u: seq<int>, p: nat, q: nat, m: real, n: real)
    requires Ascending(s) && Ascending(u) && 1 <= p < |s| - 1 && 1 <= q < |u| - 1 && s[p] in u && u[q] in s
    requires u[0] == s[0] && u[|u| - 1] == s[|s| - 1]
    requires d(s[p], s[0], s[|s| - 1]) == m && d(u[q], u[0], u[|u| - 1]) == n
    requires forall j :: 1 <= j < |s| - 1 ==> d(s[j], s[0], s[|s| - 1]) <= m
    requires forall j :: 1 <= j < p ==> d(s[j], s[0], s[|s| - 1]) < m
    requires forall j :: 1 <= j < |u| - 1 ==> d(u[j], u[0], u[|u| - 1]) <= n
    requires forall j :: 1 <= j < q ==> d(u[j], u[0], u[|u| - 1]) < n
    ensures n == m && u[q] == s[p]
  {
  }

  /** rdp gives the same result on any subsequence that still has all the points it keeps. */
  lemma {:induction false} KeptIsRobust(s: seq<int>, d: Distance, eps: real, u: seq<int>)
    requires eps >= 0.0 && Ascending(s) && Between(Kept(s, d, eps), u, s)
    ensures Kept(u, d, eps) == Kept(s, d, eps)
    decreases |s|, 1
  {
    if |s| < 3 {
      ShortPart(s, d, eps, u);
    } else {
      PartEnds(s, d, eps, u);
      if Splits(s, d, eps) {
        SplitPart(s, d, eps, u);
      } else {
        UnsplitPart(s, d, eps, u);
      }
    }
  }

  lemma ShortPart(s: seq<int>, d: Distance, eps: real, u: seq<int>)
    requires eps >= 0.0 && |s| < 3 && Ascending(s) && Between(s, u, s)
    ensures u == s
  {
    AscendingUnique(u, s);
  }

  lemma {:induction false} SplitPart(s: seq<int>, d: Distance, eps: real, u: seq<int>)
    requires eps >= 0.0 && Ascending(s) && Splits(s, d, eps) && Between(Kept(s, d, eps), u, s)
    requires |u| >= 2 && u[0] == s[0] && u[|u| - 1] == s[|s| - 1]
    ensures Kept(u, d, eps) == Kept(s, d, eps)
    decreases |s|, 0
  {
    HalvesOfPart(s, d, eps, u);
    var p, q := Cut(s, d, eps), Cut(u, d, eps);
    assert Kept(u[..q + 1], d, eps) == Kept(s[..p + 1], d, eps) by {
      KeptIsRobust(s[..p + 1], d, eps, u[..q + 1]);
    }
    assert Kept(u[q..], d, eps) == Kept(s[p..], d, eps) by {
      KeptIsRobust(s[p..], d, eps, u[q..]);
    }
    SameHalves(s, d, eps, u);
  }

  lemma PartEnds(s: seq<int>, d: Distance, eps: real, u: seq<int>)
    requires eps >= 0.0 && Ascending(s) && |s| >= 3 && Between(Kept(s, d, eps), u, s)
    ensures |u| >= 2 && u[0] == s[0] && u[|u| - 1] == s[|s| - 1]
  {
    KeptEnds(s, d, eps);
    var kept := Kept(s, d, eps);
    assert kept[0] in kept && kept[|kept| - 1] in kept;
    EndsOfPart(s, u);
  }

  lemma SameHalves(s: seq<int>, d: Distance, eps: real, u: seq<int>)
    requires eps >= 0.0 && Splits(s, d, eps) && Splits(u, d, eps)
    requires Kept(u[..Cut(u, d, eps) + 1], d, eps) == Kept(s[..Cut(s, d, eps) + 1], d, eps)
    requires Kept(u[Cut(u, d, eps)..], d, eps) == Kept(s[Cut(s, d, eps)..], d, eps)
    ensures Kept(u, d, eps) == Kept(s, d, eps)
  {
  }

  lemma UnsplitPart(s: seq<int>, d: Distance, eps: real, u: seq<int>)
    requires eps >= 0.0 && Ascending(s) && |s| >= 3 && !Splits(s, d, eps)
    requires Between([], u, s) && |u| >= 2 && u[0] == s[0] && u[|u| - 1] == s[|s| - 1]
    ensures Kept(u, d, eps) == Kept(s, d, eps)
  {
    FarthestOfPart(s, d, u);
  }

  // Both are cut at the same point
  lemma HalvesOfPart(s: seq<int>, d: Distance, eps: real, u: seq<int>)
    requires eps >= 0.0 && Ascending(s) && Splits(s, d, eps) && Between(Kept(s, d, eps), u, s)
    requires |u| >= 2 && u[0] == s[0] && u[|u| - 1] == s[|s| - 1]
    ensures Splits(u, d, eps)
    ensures var p, q := Cut(s, d, eps), Cut(u, d, eps);
      && Between(Kept(s[..p + 1], d, eps), u[..q + 1], s[..p + 1])
      && Between(Kept(s[p..], d, eps), u[q..], s[p..])
  {
    KeptOfSplit(s, d, eps);
    FarthestOfPart(s, d, u);
    SplitsToo(s, d, eps, u);
    var p, q := Cut(s, d, eps), Cut(u, d, eps);
    KeptIsSubsequence(s[..p + 1], d, eps);
    KeptIsSubsequence(s[p..], d, eps);
    HalvesBetween(s, u, p, q, Kept(s[..p + 1], d, eps), Kept(s[p..], d, eps));
  }

  lemma SplitsToo(s: seq<int>, d: Distance, eps: real, u: seq<int>)
    requires eps >= 0.0 && Ascending(s) && Ascending(u) && Splits(s, d, eps) && |u| >= 2
    requires u[0] == s[0] && u[|u| - 1] == s[|s| - 1] && s[Cut(s, d, eps)] in u
    requires Farthest(u, d, |u| - 1).1 == Farthest(s, d, |s| - 1).1
    ensures Splits(u, d, eps)
  {
    var i :| 0 <= i < |u| && u[i] == s[Cut(s, d, eps)];
  }

  lemma {:induction false} AscendingUnique(a: seq<int>, b: seq<int>)
    requires Ascending(a) && Ascending(b) && forall x :: x in a <==> x in b
    ensures a == b
  {
    if b != [] {
      assert b[0] in b;
    }
    if a != [] {
      assert a[0] in a && b != [] && b[0] in b;
      var i :| 0 <= i < |b| && b[i] == a[0];
      var j :| 0 <= j < |a| && a[j] == b[0];
      assert a[0] == b[0];
      forall x
        ensures x in a[1..] <==> x in b[1..]
      {
        if x in a[1..] {
          assert x in a && x > a[0];
          var k :| 0 <= k < |b| && b[k] == x;
        }
        if x in b[1..] {
          assert x in b && x > b[0];
          var k :| 0 <= k < |a| && a[k] == x;
        }
      }
      AscendingUnique(a[1..], b[1..]);
    }
  }

  lemma EndsOfPart(s: seq<int>, u: seq<int>)
    requires Ascending(s) && |s| >= 2 && Ascending(u) && s[0] in u && s[|s| - 1] in u && forall x :: x in u ==> x in s
    ensures |u| >= 2 && u[0] == s[0] && u[|u| - 1] == s[|s| - 1]
  {
    var i :| 0 <= i < |u| && u[i] == s[0];
    var j :| 0 <= j < |u| && u[j] == s[|s| - 1];
    assert u[0] in s && u[|u| - 1] in s;
  }

  // Both halves of `u` lie in the halves of `s` when they are cut at the same index
  lemma PartOfHalves(s: seq<int>, u: seq<int>, p: nat, q: nat)
    requires Ascending(s) && Between([], u, s) && p < |s| && q < |u| && u[q] == s[p]
    ensures Between([], u[..q + 1], s[..p + 1]) && Between([], u[q..], s[p..])
  {
    forall i | 0 <= i < |u|
      ensures i <= q ==> u[i] in s[..p + 1]
      ensures i >= q ==> u[i] in s[p..]
    {
      assert u[i] in u;
      var j :| 0 <= j < |s| && s[j] == u[i];
      if i <= q {
        assert s[..p + 1][j] == u[i];
      }
      if i >= q {
        assert s[p..][j - p] == u[i];
      }
    }
  }

  lemma HalvesBetween(s: seq<int>, u: seq<int>, p: nat, q: nat, left: seq<int>, right: seq<int>)
    requires Ascending(s) && Ascending(u) && p < |s| && q < |u| && u[q] == s[p]
    requires Between([], u, s)
    requires (forall x :: x in left ==> x in s[..p + 1] && x in u) && (forall x :: x in right ==> x in s[p..] && x in u)
    ensures Between(left, u[..q + 1], s[..p + 1]) && Between(right, u[q..], s[p..])
  {
    PartOfHalves(s, u, p, q);
    forall x | x in left
      ensures x in u[..q + 1]
    {
      var j :| 0 <= j < |u| && u[j] == x;
      assert x <= s[p];
      assert x == u[..q + 1][j];
    }
    forall x | x in right
      ensures x in u[q..]
    {
      var j :| 0 <= j < |u| && u[j] == x;
      assert x >= s[p];
      assert x == u[q..][j - q];
    }
  }
}
