/** Lloyd's iteration in exact arithmetic (lloyds_iter, run_lloyds; src/math_utils.cpp:242-359). */
module Lloyd {
  import opened ClosestCenters

  // Sum of squared distances of the points to the centers they are assigned to.
  function Cost(data: seq<Row>, centers: seq<Row>, a: seq<nat>, dim: nat): real
    requires Rows(data, dim) && Rows(centers, dim) && |a| == |data| && forall i :: 0 <= i < |a| ==> a[i] < |centers|
  {
    if data == [] then 0.0
    else
      var n := |data| - 1;
      Cost(data[..n], centers, a[..n], dim) + DistSq(data[n], centers[a[n]])
  }

  // The part of the cost due to cluster c if its center were p.
  ghost function ClusterCost(data: seq<Row>, a: seq<nat>, c: nat, p: Row): real
    requires |a| == |data| && Rows(data, |p|)
  {
    if data == [] then 0.0
    else
      var n := |data| - 1;
      ClusterCost(data[..n], a[..n], c, p) + if a[n] == c then DistSq(data[n], p) else 0.0
  }

  // Per-coordinate sums over cluster c: count, sum and squared deviation from y.
  ghost function Count(a: seq<nat>, c: nat): nat {
    if a == [] then 0 else Count(a[..|a| - 1], c) + if a[|a| - 1] == c then 1 else 0
  }

  ghost function Sum(data: seq<Row>, a: seq<nat>, c: nat, j: nat): real
    requires |a| == |data| && forall i :: 0 <= i < |data| ==> j < |data[i]|
  {
    if data == [] then 0.0
    else
      var n := |data| - 1;
      Sum(data[..n], a[..n], c, j) + if a[n] == c then data[n][j] else 0.0
  }

  ghost function Deviation(data: seq<Row>, a: seq<nat>, c: nat, j: nat, y: real): real
    requires |a| == |data| && forall i :: 0 <= i < |data| ==> j < |data[i]|
  {
    if data == [] then 0.0
    else
      var n := |data| - 1;
      Deviation(data[..n], a[..n], c, j, y) + if a[n] == c then SquaredGap(data[n][j], y) else 0.0
  }

  // Squared deviations dy from y and dm from m of the same k values with sum s.
  ghost predicate Shifted(dy: real, dm: real, k: real, s: real, m: real, y: real) {
    dy == dm + 2.0 * (m - y) * (s - k * m) + k * SquaredGap(m, y)
  }

  lemma ShiftStep(dy: real, dm: real, k: real, s: real, x: real, m: real, y: real)
    requires Shifted(dy, dm, k, s, m, y)
    ensures Shifted(dy + SquaredGap(x, y), dm + SquaredGap(x, m), k + 1.0, s + x, m, y)
  {
    var d := m - y;
    assert (x - y) * (x - y) == ((x - m) + d) * ((x - m) + d);
    assert 2.0 * d * ((s + x) - (k + 1.0) * m) == 2.0 * d * (s - k * m) + 2.0 * d * (x - m);
  }

  lemma {:induction false} DeviationShift(data: seq<Row>, a: seq<nat>, c: nat, j: nat, m: real, y: real)
    requires |a| == |data| && forall i :: 0 <= i < |data| ==> j < |data[i]|
    ensures Shifted(Deviation(data, a, c, j, y), Deviation(data, a, c, j, m),
                    Count(a, c) as real, Sum(data, a, c, j), m, y)
  {
    if data != [] {
      var n := |data| - 1;
      DeviationShift(data[..n], a[..n], c, j, m, y);
      ShiftStep(Deviation(data[..n], a[..n], c, j, y), Deviation(data[..n], a[..n], c, j, m),
                Count(a[..n], c) as real, Sum(data[..n], a[..n], c, j), data[n][j], m, y);
    }
  }

  // m is the mean of k values with sum s; anything is the mean of none.
  ghost predicate IsMean(k: nat, m: real, s: real) {
    k as real * m == s
  }

  // The mean minimises the deviation.
  lemma MeanMinimises(data: seq<Row>, a: seq<nat>, c: nat, j: nat, m: real, y: real)
    requires |a| == |data| && forall i :: 0 <= i < |data| ==> j < |data[i]|
    requires IsMean(Count(a, c), m, Sum(data, a, c, j))
    ensures Deviation(data, a, c, j, m) <= Deviation(data, a, c, j, y)
  {
    DeviationShift(data, a, c, j, m, y);
    ShiftFromMean(Deviation(data, a, c, j, y), Deviation(data, a, c, j, m),
                  Count(a, c) as real, Sum(data, a, c, j), m, y);
  }

  lemma ShiftFromMean(dy: real, dm: real, k: real, s: real, m: real, y: real)
    requires Shifted(dy, dm, k, s, m, y) && k >= 0.0 && k * m == s
    ensures dm <= dy
  {
    assert (m - y) * (m - y) >= 0.0;
  }

  // Splitting off the last coordinate.
  ghost function Cut(data: seq<Row>, dim: nat): (r: seq<Row>)
    requires forall i :: 0 <= i < |data| ==> dim <= |data[i]|
    ensures |r| == |data| && forall i :: 0 <= i < |data| ==> r[i] == data[i][..dim]
  {
    seq(|data|, i requires 0 <= i < |data| => data[i][..dim])
  }

  lemma {:induction false} SplitCoordinate(data: seq<Row>, a: seq<nat>, c: nat, p: Row)
    requires |a| == |data| && Rows(data, |p|) && |p| > 0
    ensures var j := |p| - 1;
            ClusterCost(data, a, c, p) == ClusterCost(Cut(data, j), a, c, p[..j]) + Deviation(data, a, c, j, p[j])
  {
    if data != [] {
      var n, j := |data| - 1, |p| - 1;
      SplitCoordinate(data[..n], a[..n], c, p);
      assert Cut(data, j)[..n] == Cut(data[..n], j);
    }
  }

  lemma {:induction false} SumCut(data: seq<Row>, a: seq<nat>, c: nat, j: nat, dim: nat)
    requires |a| == |data| && j < dim && forall i :: 0 <= i < |data| ==> dim <= |data[i]|
    ensures Sum(Cut(data, dim), a, c, j) == Sum(data, a, c, j)
  {
    if data != [] {
      var n := |data| - 1;
      SumCut(data[..n], a[..n], c, j, dim);
      assert Cut(data, dim)[..n] == Cut(data[..n], dim);
    }
  }

  // m is the centroid of cluster c.
  ghost predicate IsCentroid(data: seq<Row>, a: seq<nat>, c: nat, m: Row)
    requires |a| == |data| && Rows(data, |m|)
  {
    forall j :: 0 <= j < |m| ==> IsMean(Count(a, c), m[j], Sum(data, a, c, j))
  }

  lemma CentroidCut(data: seq<Row>, a: seq<nat>, c: nat, m: Row, j: nat)
    requires |a| == |data| && Rows(data, |m|) && j < |m| && IsCentroid(data, a, c, m)
    ensures IsCentroid(Cut(data, j), a, c, m[..j])
  {
    forall i | 0 <= i < j ensures IsMean(Count(a, c), m[..j][i], Sum(Cut(data, j), a, c, i)) {
      SumCut(data, a, c, i, j);
      assert m[..j][i] == m[i];
    }
  }

  /** The centroid minimises its cluster's sum of squares. */
  lemma {:induction false} CentroidMinimises(data: seq<Row>, a: seq<nat>, c: nat, m: Row, p: Row)
    requires |a| == |data| && Rows(data, |p|) && |m| == |p| && IsCentroid(data, a, c, m)
    ensures ClusterCost(data, a, c, m) <= ClusterCost(data, a, c, p)
    decreases |p|
  {
    if |p| == 0 {
      assert m == p;
    } else {
      var j := |p| - 1;
      SplitCoordinate(data, a, c, m);
      SplitCoordinate(data, a, c, p);
      MeanMinimises(data, a, c, j, m[j], p[j]);
      CentroidCut(data, a, c, m, j);
      CentroidMinimises(Cut(data, j), a, c, m[..j], p[..j]);
    }
  }

  // The cost, cluster by cluster.
  ghost function CostByCluster(data: seq<Row>, centers: seq<Row>, a: seq<nat>, dim: nat): real
    requires Rows(data, dim) && Rows(centers, dim) && |a| == |data|
  {
    if centers == [] then 0.0
    else
      var c := |centers| - 1;
      CostByCluster(data, centers[..c], a, dim) + ClusterCost(data, a, c, centers[c])
  }

  lemma {:induction false} ByClusterNone(centers: seq<Row>, a: seq<nat>, dim: nat)
    requires Rows(centers, dim) && a == []
    ensures CostByCluster([], centers, a, dim) == 0.0
  {
    if centers != [] {
      ByClusterNone(centers[..|centers| - 1], a, dim);
    }
  }

  // One more point adds its distance to exactly one cluster.
  lemma {:induction false} ByClusterAdd(data: seq<Row>, centers: seq<Row>, a: seq<nat>, dim: nat)
    requires Rows(data, dim) && Rows(centers, dim) && |a| == |data| > 0
    ensures var n := |data| - 1;
            CostByCluster(data, centers, a, dim) == CostByCluster(data[..n], centers, a[..n], dim)
              + if a[n] < |centers| then DistSq(data[n], centers[a[n]]) else 0.0
  {
    if centers != [] {
      ByClusterAdd(data, centers[..|centers| - 1], a, dim);
    }
  }

  lemma {:induction false} CostIsByCluster(data: seq<Row>, centers: seq<Row>, a: seq<nat>, dim: nat)
    requires Rows(data, dim) && Rows(centers, dim) && |a| == |data| && forall i :: 0 <= i < |a| ==> a[i] < |centers|
    ensures Cost(data, centers, a, dim) == CostByCluster(data, centers, a, dim)
  {
    if data == [] {
      ByClusterNone(centers, a, dim);
    } else {
      CostIsByCluster(data[..|data| - 1], centers, a[..|data| - 1], dim);
      ByClusterAdd(data, centers, a, dim);
    }
  }

  // Centers after the update: the centroid, or anything (the code zeroes it) for an empty cluster.
  ghost predicate Updated(data: seq<Row>, a: seq<nat>, centers: seq<Row>, dim: nat)
    requires Rows(data, dim) && Rows(centers, dim) && |a| == |data|
  {
    forall c :: 0 <= c < |centers| ==> IsCentroid(data, a, c, centers[c])
  }

  lemma {:induction false} UpdateImproves(data: seq<Row>, before: seq<Row>, after: seq<Row>, a: seq<nat>, dim: nat)
    requires Rows(data, dim) && Rows(before, dim) && Rows(after, dim) && |a| == |data| && |before| == |after|
    requires Updated(data, a, after, dim)
    ensures CostByCluster(data, after, a, dim) <= CostByCluster(data, before, a, dim)
    decreases |before|
  {
    if before != [] {
      var c := |before| - 1;
      UpdateImproves(data, before[..c], after[..c], a, dim);
      CentroidMinimises(data, a, c, after[c], before[c]);
    }
  }

  // The nearest center costs no more than any other.
  lemma {:induction false} AssignImproves(data: seq<Row>, centers: seq<Row>, a: seq<nat>, b: seq<nat>, dim: nat)
    requires Rows(data, dim) && Rows(centers, dim) && |a| == |b| == |data|
    requires forall i :: 0 <= i < |data| ==> a[i] < |centers| && b[i] < |centers|
    requires forall i, c :: 0 <= i < |data| && 0 <= c < |centers|
                ==> DistSq(data[i], centers[a[i]]) <= DistSq(data[i], centers[c])
    ensures Cost(data, centers, a, dim) <= Cost(data, centers, b, dim)
  {
    if data != [] {
      var n := |data| - 1;
      AssignImproves(data[..n], centers, a[..n], b[..n], dim);
    }
  }

  /** One iteration never increases the cost, whatever assignment and centers it started from; centers of empty clusters
      may be anything. */
  lemma IterationImproves(data: seq<Row>, before: seq<Row>, after: seq<Row>, old_: seq<nat>, new_: seq<nat>, dim: nat)
    requires Rows(data, dim) && Rows(before, dim) && Rows(after, dim) && |before| == |after|
    requires |old_| == |new_| == |data|
    requires forall i :: 0 <= i < |data| ==> old_[i] < |before| && new_[i] < |before|
    requires forall i, c :: 0 <= i < |data| && 0 <= c < |before| ==>
               DistSq(data[i], before[new_[i]]) <= DistSq(data[i], before[c])
    requires Updated(data, new_, after, dim)
    ensures Cost(data, after, new_, dim) <= Cost(data, before, old_, dim)
  {
    AssignImproves(data, before, new_, old_, dim);
    CostIsByCluster(data, before, new_, dim);
    CostIsByCluster(data, after, new_, dim);
    UpdateImproves(data, before, after, new_, dim);
  }

  // The points assigned to c, in order.
  ghost function Members(a: seq<nat>, c: nat): seq<nat> {
    if a == [] then [] else Members(a[..|a| - 1], c) + if a[|a| - 1] == c then [|a| - 1] else []
  }

  ghost function SumOver(data: seq<Row>, docs: seq<nat>, j: nat): real
    requires forall i :: 0 <= i < |docs| ==> docs[i] < |data| && j < |data[docs[i]]|
  {
    if docs == [] then 0.0 else SumOver(data, docs[..|docs| - 1], j) + data[docs[|docs| - 1]][j]
  }

  lemma {:induction false} MembersBelow(a: seq<nat>, c: nat)
    ensures |Members(a, c)| == Count(a, c)
    ensures forall i :: 0 <= i < |Members(a, c)| ==> Members(a, c)[i] < |a|
  {
    if a != [] {
      MembersBelow(a[..|a| - 1], c);
    }
  }

  lemma {:induction false} SumOverPrefix(data: seq<Row>, n: nat, docs: seq<nat>, j: nat)
    requires n <= |data| && forall i :: 0 <= i < |docs| ==> docs[i] < n && j < |data[docs[i]]|
    ensures SumOver(data[..n], docs, j) == SumOver(data, docs, j)
  {
    if docs != [] {
      SumOverPrefix(data, n, docs[..|docs| - 1], j);
    }
  }

  lemma {:induction false} SumOverMembers(data: seq<Row>, a: seq<nat>, c: nat, j: nat)
    requires |a| == |data| && forall i :: 0 <= i < |data| ==> j < |data[i]|
    requires forall i :: 0 <= i < |Members(a, c)| ==> Members(a, c)[i] < |data|
    ensures SumOver(data, Members(a, c), j) == Sum(data, a, c, j)
  {
    if data != [] {
      var n := |data| - 1;
      var rest := Members(a[..n], c);
      MembersBelow(a[..n], c);
      SumOverMembers(data[..n], a[..n], c, j);
      SumOverPrefix(data, n, rest, j);
      if a[n] == c {
        assert Members(a, c)[..|rest|] == rest;
      } else {
        assert Members(a, c) == rest;
      }
    }
  }

  // The inverted index for one center each.
  lemma {:induction false} PointsAreMembers(sel: seq<seq<nat>>, a: seq<nat>, c: nat)
    requires |sel| == |a| && forall i :: 0 <= i < |a| ==> sel[i] == [a[i]]
    ensures PointsOf(sel, c) == Members(a, c)
  {
    if a != [] {
      var n := |a| - 1;
      PointsAreMembers(sel[..n], a[..n], c);
      assert multiset(sel[n])[c] == if a[n] == c then 1 else 0;
    }
  }

  // cluster_sum, coordinate by coordinate.
  method ClusterSum(data: seq<Row>, docs: seq<nat>, dim: nat) returns (sum: array<real>)
    requires Rows(data, dim) && forall i :: 0 <= i < |docs| ==> docs[i] < |data|
    ensures fresh(sum) && sum.Length == dim && forall j :: 0 <= j < dim ==> sum[j] == SumOver(data, docs, j)
  {
    sum := new real[dim](_ => 0.0);
    for i := 0 to |docs|
      invariant forall j :: 0 <= j < dim ==> sum[j] == SumOver(data, docs[..i], j)
    {
      var current := data[docs[i]];
      assert docs[..i + 1][..i] == docs[..i];
      for j := 0 to dim
        invariant forall t :: 0 <= t < j ==> sum[t] == SumOver(data, docs[..i + 1], t)
        invariant forall t :: j <= t < dim ==> sum[t] == SumOver(data, docs[..i], t)
      {
        sum[j] := sum[j] + current[j];
      }
    }
    assert docs[..|docs|] == docs;
  }

  ghost function Mean(data: seq<Row>, docs: seq<nat>, j: nat): (m: real)
    requires |docs| > 0 && forall i :: 0 <= i < |docs| ==> docs[i] < |data| && j < |data[docs[i]]|
    ensures IsMean(|docs|, m, SumOver(data, docs, j))
  {
    Quotient(SumOver(data, docs, j), |docs| as real);
    SumOver(data, docs, j) / |docs| as real
  }

  lemma Quotient(s: real, k: real)
    requires k > 0.0
    ensures k * (s / k) == s
  {
  }

  lemma QuotientIsCentroid(data: seq<Row>, a: seq<nat>, c: nat, m: Row)
    requires |a| == |data| && Rows(data, |m|)
    requires forall i :: 0 <= i < |Members(a, c)| ==> Members(a, c)[i] < |data|
    requires |Members(a, c)| > 0 ==> forall j :: 0 <= j < |m| ==> m[j] == Mean(data, Members(a, c), j)
    ensures IsCentroid(data, a, c, m)
  {
    MembersBelow(a, c);
    forall j | 0 <= j < |m| ensures IsMean(Count(a, c), m[j], Sum(data, a, c, j)) {
      SumOverMembers(data, a, c, j);
    }
  }

  // A zeroed center, replaced by the mean of its cluster when there is one.
  method NewCenter(data: seq<Row>, a: seq<nat>, c: nat, docs: seq<nat>, dim: nat) returns (center: Row)
    requires Rows(data, dim) && |a| == |data| && docs == Members(a, c)
    ensures |center| == dim && IsCentroid(data, a, c, center)
    ensures docs == [] ==> center == seq(dim, _ => 0.0)
  {
    MembersBelow(a, c);
    center := seq(dim, _ => 0.0);
    var sum := ClusterSum(data, docs, dim);
    if |docs| > 0 {
      for i := 0 to dim
        invariant |center| == dim
        invariant forall j :: 0 <= j < i ==> center[j] == Mean(data, docs, j)
      {
        center := center[i := sum[i] / |docs| as real];
      }
    }
    QuotientIsCentroid(data, a, c, center);
  }

  ghost function CostTo(data: seq<Row>, centers: seq<Row>, a: seq<nat>, dim: nat, n: nat): real
    requires Rows(data, dim) && Rows(centers, dim) && |a| == |data| && n <= |data|
    requires forall i :: 0 <= i < |a| ==> a[i] < |centers|
  {
    Cost(data[..n], centers, a[..n], dim)
  }

  const CHUNK_SIZE: nat := 2 * 8192

  // The residual of one chunk.
  method ChunkResidual(data: seq<Row>, centers: seq<Row>, a: seq<nat>, dim: nat, chunk: nat) returns (r: real)
    requires Rows(data, dim) && Rows(centers, dim) && |a| == |data| && chunk * CHUNK_SIZE <= |data|
    requires forall i :: 0 <= i < |a| ==> a[i] < |centers|
    ensures var e := if (chunk + 1) * CHUNK_SIZE < |data| then (chunk + 1) * CHUNK_SIZE else |data|;
            r == CostTo(data, centers, a, dim, e) - CostTo(data, centers, a, dim, chunk * CHUNK_SIZE)
  {
    r := 0.0;
    var d := chunk * CHUNK_SIZE;
    while d < |data| && d < (chunk + 1) * CHUNK_SIZE
      invariant chunk * CHUNK_SIZE <= d <= |data| && d <= (chunk + 1) * CHUNK_SIZE
      invariant r == CostTo(data, centers, a, dim, d) - CostTo(data, centers, a, dim, chunk * CHUNK_SIZE)
    {
      var dist := CalcDistance(data[d], centers[a[d]]);
      assert data[..d + 1][..d] == data[..d] && a[..d + 1][..d] == a[..d];
      r := r + dist;
      d := d + 1;
    }
  }

  /** The residual, chunk by chunk, is the cost. */
  method Residual(data: seq<Row>, centers: seq<Row>, a: seq<nat>, dim: nat) returns (residual: real)
    requires Rows(data, dim) && Rows(centers, dim) && |a| == |data|
    requires forall i :: 0 <= i < |a| ==> a[i] < |centers|
    ensures residual == Cost(data, centers, a, dim)
  {
    residual := 0.0;
    var chunks := |data| / CHUNK_SIZE + if |data| % CHUNK_SIZE == 0 then 0 else 1;
    var done: nat := 0;
    for chunk := 0 to chunks
      invariant done == if chunk * CHUNK_SIZE < |data| then chunk * CHUNK_SIZE else |data|
      invariant residual == CostTo(data, centers, a, dim, done)
    {
      var r := ChunkResidual(data, centers, a, dim, chunk);
      residual := residual + r;
      done := if (chunk + 1) * CHUNK_SIZE < |data| then (chunk + 1) * CHUNK_SIZE else |data|;
    }
    assert data[..|data|] == data && a[..|a|] == a;
  }

  // a assigns every point to a center nearest to it.
  ghost predicate Nearest(data: seq<Row>, centers: seq<Row>, a: seq<nat>, dim: nat)
    requires Rows(data, dim) && Rows(centers, dim)
  {
    && |a| == |data|
    && (forall i :: 0 <= i < |a| ==> a[i] < |centers|)
    && forall i, c :: 0 <= i < |data| && 0 <= c < |centers| ==>
         DistSq(data[i], centers[a[i]]) <= DistSq(data[i], centers[c])
  }

  ghost predicate IsAssignment(a: seq<nat>, n: nat, k: nat) {
    |a| == n && forall i :: 0 <= i < n ==> a[i] < k
  }

  // Compute_closest_centers for one center each, with the inverted index.
  method Assign(data: seq<Row>, dim: nat, centers: seq<Row>, norms: seq<real>)
    returns (closest: seq<nat>, docs: seq<seq<nat>>)
    requires Rows(data, dim) && Rows(centers, dim) && |centers| > 0
    requires |norms| == |data| && forall i :: 0 <= i < |data| ==> norms[i] == Dot(data[i], data[i])
    ensures Nearest(data, centers, closest, dim)
    ensures forall i :: 0 <= i < |data| ==> FirstNearest(data[i], centers, closest[i])
    ensures |docs| == |centers| && forall c :: 0 <= c < |docs| ==> docs[c] == Members(closest, c)
  {
    var ok, sel;
    ok, sel, docs := ComputeClosestCenters(data, dim, centers, 1, norms);
    closest := seq(|data|, i requires 0 <= i < |data| => sel[i][0]);
    forall i | 0 <= i < |data|
      ensures closest[i] < |centers| && sel[i] == [closest[i]]
      ensures forall c :: 0 <= c < |centers| ==> DistSq(data[i], centers[closest[i]]) <= DistSq(data[i], centers[c])
    {
      assert KNearest(data[i], centers, 1, sel[i]);
      assert sel[i] == [closest[i]];
    }
    forall c | 0 <= c < |docs| ensures docs[c] == Members(closest, c) {
      PointsAreMembers(sel, closest, c);
    }
  }

  // No assignment to these centers costs less than r.
  ghost predicate AtMostEvery(data: seq<Row>, centers: seq<Row>, dim: nat, r: real)
    requires Rows(data, dim) && Rows(centers, dim)
  {
    forall b :: IsAssignment(b, |data|, |centers|) ==> r <= Cost(data, centers, b, dim)
  }

  // The state between iterations: the last residual is the cost of the current centers.
  ghost predicate Settled(data: seq<Row>, centers: seq<Row>, a: seq<nat>, dim: nat, r: real) {
    && Rows(data, dim) && Rows(centers, dim) && IsAssignment(a, |data|, |centers|)
    && Updated(data, a, centers, dim) && r == Cost(data, centers, a, dim)
  }

  /** lloyds_iter: reassigns, replaces the centers in place (zero for an empty cluster) and returns the residual,
      which is the new cost and no more than the cost of any assignment to the old centers. */
  method LloydsIter(data: seq<Row>, dim: nat, centers: array<Row>, norms: seq<real>)
    returns (residual: real, docs: seq<seq<nat>>, closest: seq<nat>)
    requires Rows(data, dim) && Rows(centers[..], dim) && centers.Length > 0
    requires |norms| == |data| && forall i :: 0 <= i < |data| ==> norms[i] == Dot(data[i], data[i])
    modifies centers
    ensures Rows(centers[..], dim) && Nearest(data, old(centers[..]), closest, dim)
    ensures Updated(data, closest, centers[..], dim)
    ensures |docs| == centers.Length && forall c :: 0 <= c < |docs| ==> docs[c] == Members(closest, c)
    ensures forall c :: 0 <= c < |docs| && docs[c] == [] ==> centers[c] == seq(dim, _ => 0.0)
    ensures residual == Cost(data, centers[..], closest, dim)
    ensures AtMostEvery(data, old(centers[..]), dim, residual)
  {
    ghost var before := centers[..];
    closest, docs := Assign(data, dim, centers[..], norms);
    for c := 0 to centers.Length
      invariant forall t :: 0 <= t < c ==> |centers[t]| == dim && IsCentroid(data, closest, t, centers[t])
      invariant forall t :: 0 <= t < c && docs[t] == [] ==> centers[t] == seq(dim, _ => 0.0)
    {
      var center := NewCenter(data, closest, c, docs[c], dim);
      centers[c] := center;
    }
    residual := Residual(data, centers[..], closest, dim);
    forall b | IsAssignment(b, |data|, centers.Length) ensures residual <= Cost(data, before, b, dim) {
      IterationImproves(data, before, centers[..], b, closest, dim);
    }
  }

  const FLT_MAX: real := 340282346638528859811704183484516925440.0
  const FLT_EPSILON: real := 0.00000011920928955078125

  // The stopping test after iteration i; the quotient of zero residuals is not a number and compares false.
  predicate Stops(i: nat, before: real, residual: real) {
    || (i != 0 && residual != 0.0 && (before - residual) / residual < 0.00001)
    || residual < FLT_EPSILON
  }

  // A run of residuals: never increasing, going on exactly until the test stops it or the repetitions are used up.
  ghost predicate Descent(t: seq<real>, maxReps: nat) {
    && |t| <= maxReps
    && (forall i, j :: 0 <= i < j < |t| ==> t[j] <= t[i])
    && (forall i :: 0 <= i < |t| - 1 ==> !StopsAt(t, i))
    && (|t| < maxReps ==> |t| > 0 && StopsAt(t, |t| - 1))
  }

  // The test after iteration i of a run.
  predicate StopsAt(t: seq<real>, i: nat)
    requires i < |t|
  {
    Stops(i, if i == 0 then FLT_MAX else t[i - 1], t[i])
  }

  // The gain over the last residual, relative to this one.
  ghost predicate GainBelow(before: real, residual: real, bound: real) {
    residual > 0.0 && (before - residual) / residual < bound
  }

  // Every residual but the last is at least FLT_EPSILON, and after the first its relative gain at least 0.00001; unless
  // the repetitions are used up the last falls short in one of the two.
  ghost predicate RunsUntilSmall(t: seq<real>, maxReps: nat) {
    && (forall i :: 0 <= i < |t| - 1 ==>
          t[i] >= 0.00000011920928955078125 && (i > 0 ==> !GainBelow(t[i - 1], t[i], 0.00001)))
    && (|t| < maxReps ==>
          && |t| > 0
          && (|| t[|t| - 1] < 0.00000011920928955078125
              || (|t| > 1 && GainBelow(t[|t| - 2], t[|t| - 1], 0.00001))))
  }

  lemma DescentMeaning(t: seq<real>, maxReps: nat)
    requires Descent(t, maxReps)
    ensures RunsUntilSmall(t, maxReps)
  {
    forall i | 0 <= i < |t| - 1
      ensures t[i] >= 0.00000011920928955078125 && (i > 0 ==> !GainBelow(t[i - 1], t[i], 0.00001))
    {
      assert !StopsAt(t, i);
      StopsMeaning(i, if i == 0 then FLT_MAX else t[i - 1], t[i]);
    }
    if |t| < maxReps {
      StopsMeaning(|t| - 1, if |t| == 1 then FLT_MAX else t[|t| - 2], t[|t| - 1]);
    }
  }

  lemma StopsMeaning(i: nat, before: real, residual: real)
    ensures Stops(i, before, residual) <==>
              residual < 0.00000011920928955078125 || (i > 0 && GainBelow(before, residual, 0.00001))
  {
  }

  // Residuals that have gone down so far without meeting the stopping test.
  ghost predicate Going(t: seq<real>) {
    && (forall i, j :: 0 <= i < j < |t| ==> t[j] <= t[i])
    && (forall i :: 0 <= i < |t| ==> !StopsAt(t, i))
  }

  lemma GoOn(t: seq<real>, before: real, r: real, maxReps: nat)
    requires Going(t) && |t| < maxReps && (|t| > 0 ==> r <= t[|t| - 1])
    requires before == if |t| == 0 then FLT_MAX else t[|t| - 1]
    ensures if Stops(|t|, before, r) then Descent(t + [r], maxReps) else Going(t + [r])
  {
    var u := t + [r];
    forall i | 0 <= i < |t| ensures !StopsAt(u, i) {
      SameTest(t, u, i);
    }
    assert u[|t|] == r && (|t| > 0 ==> u[|t| - 1] == t[|t| - 1]);
    assert StopsAt(u, |t|) == Stops(|t|, before, r);
    assert forall i :: 0 <= i < |t| ==> u[i] == t[i];
    assert forall i, j :: 0 <= i < j < |u| ==> u[j] <= u[i];
  }

  lemma SameTest(t: seq<real>, u: seq<real>, i: nat)
    requires i < |t| <= |u| && t <= u
    ensures StopsAt(u, i) == StopsAt(t, i)
  {
    assert u[i] == t[i] && (i > 0 ==> u[i - 1] == t[i - 1]);
  }

  lemma RanOut(t: seq<real>, maxReps: nat)
    requires Going(t) && |t| == maxReps
    ensures Descent(t, maxReps)
  {
  }

  /** run_lloyds: the residuals descend, the last one is returned and is the cost of the returned centers; it is no more
      than the cost of any assignment to the given ones. */
  method RunLloyds(data: seq<Row>, dim: nat, centers: array<Row>, maxReps: nat)
    returns (residual: real, docs: seq<seq<nat>>, closest: seq<nat>, ghost trace: seq<real>)
    requires Rows(data, dim) && Rows(centers[..], dim) && centers.Length > 0
    modifies centers
    ensures Rows(centers[..], dim) && Descent(trace, maxReps) && RunsUntilSmall(trace, maxReps)
    ensures maxReps == 0 ==> residual == FLT_MAX && centers[..] == old(centers[..])
    ensures maxReps > 0 ==> residual == trace[|trace| - 1] && Settled(data, centers[..], closest, dim, residual)
    ensures maxReps > 0 ==> AtMostEvery(data, old(centers[..]), dim, residual)
  {
    var norms := VecsL2Sq(data);
    residual, docs, closest, trace := Repeat(data, dim, centers, norms, maxReps);
    DescentMeaning(trace, maxReps);
  }

  // An iteration from a settled state does not raise the residual.
  lemma NoMore(data: seq<Row>, first: seq<Row>, before: seq<Row>, previous: seq<nat>, dim: nat, r: real, r': real)
    requires Settled(data, before, previous, dim, r) && AtMostEvery(data, before, dim, r')
    requires Rows(first, dim) && AtMostEvery(data, first, dim, r)
    ensures r' <= r && AtMostEvery(data, first, dim, r')
  {
  }

  // The loop over the repetitions.
  method Repeat(data: seq<Row>, dim: nat, centers: array<Row>, norms: seq<real>, maxReps: nat)
    returns (residual: real, docs: seq<seq<nat>>, closest: seq<nat>, ghost trace: seq<real>)
    requires Rows(data, dim) && Rows(centers[..], dim) && centers.Length > 0
    requires |norms| == |data| && forall i :: 0 <= i < |data| ==> norms[i] == Dot(data[i], data[i])
    modifies centers
    ensures Rows(centers[..], dim) && Descent(trace, maxReps)
    ensures maxReps == 0 ==> residual == FLT_MAX && centers[..] == old(centers[..])
    ensures maxReps > 0 ==> residual == trace[|trace| - 1] && Settled(data, centers[..], closest, dim, residual)
    ensures maxReps > 0 ==> AtMostEvery(data, old(centers[..]), dim, residual)
  {
    residual, docs, closest, trace := FLT_MAX, [], [], [];
    for i := 0 to maxReps
      invariant |trace| == i && Going(trace) && Rows(centers[..], dim)
      invariant residual == if i == 0 then FLT_MAX else trace[i - 1]
      invariant i == 0 ==> centers[..] == old(centers[..])
      invariant i > 0 ==> Settled(data, centers[..], closest, dim, residual)
      invariant i > 0 ==> AtMostEvery(data, old(centers[..]), dim, residual)
    {
      var oldResidual := residual;
      ghost var previous, before := closest, centers[..];
      residual, docs, closest := LloydsIter(data, dim, centers, norms);
      if i > 0 {
        NoMore(data, old(centers[..]), before, previous, dim, oldResidual, residual);
      }
      GoOn(trace, oldResidual, residual, maxReps);
      trace := trace + [residual];
      if Stops(i, oldResidual, residual) {
        return;
      }
    }
    RanOut(trace, maxReps);
  }
}
