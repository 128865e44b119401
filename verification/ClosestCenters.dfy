/** Exact squared distances by norms expansion, and the k closest centers of each point
    (src/math_utils.cpp:19-203). Rows are vectors of reals; a matrix product is the dot product it stands for. */
module ClosestCenters {
  import opened NeighborOrder

  type Row = seq<real>

  ghost predicate Rows(m: seq<Row>, dim: nat) {
    forall i :: 0 <= i < |m| ==> |m[i]| == dim
  }

  function Dot(a: Row, b: Row): real
    requires |a| == |b|
  {
    if a == [] then 0.0 else Dot(a[..|a| - 1], b[..|b| - 1]) + a[|a| - 1] * b[|b| - 1]
  }

  function SquaredGap(x: real, y: real): real {
    (x - y) * (x - y)
  }

  function DistSq(a: Row, b: Row): real
    requires |a| == |b|
  {
    if a == [] then 0.0 else DistSq(a[..|a| - 1], b[..|b| - 1]) + SquaredGap(a[|a| - 1], b[|b| - 1])
  }

  lemma ExpandGap(x: real, y: real)
    ensures SquaredGap(x, y) == x * x + y * y - 2.0 * (x * y)
  {
  }

  // |a|^2 + |b|^2 - 2 a.b is the squared distance.
  lemma {:induction false} NormsExpansion(a: Row, b: Row)
    requires |a| == |b|
    ensures Dot(a, a) + Dot(b, b) - 2.0 * Dot(a, b) == DistSq(a, b)
  {
    if a != [] {
      NormsExpansion(a[..|a| - 1], b[..|b| - 1]);
      ExpandGap(a[|a| - 1], b[|b| - 1]);
    }
  }

  method DotLoop(a: Row, b: Row) returns (r: real)
    requires |a| == |b|
    ensures r == Dot(a, b)
  {
    r := 0.0;
    for j := 0 to |a|
      invariant r == Dot(a[..j], b[..j])
    {
      assert a[..j + 1][..j] == a[..j] && b[..j + 1][..j] == b[..j];
      r := r + a[j] * b[j];
    }
    assert a[..|a|] == a && b[..|b|] == b;
  }

  // calc_distance
  method CalcDistance(a: Row, b: Row) returns (r: real)
    requires |a| == |b|
    ensures r == DistSq(a, b)
  {
    r := 0.0;
    for j := 0 to |a|
      invariant r == DistSq(a[..j], b[..j])
    {
      assert a[..j + 1][..j] == a[..j] && b[..j + 1][..j] == b[..j];
      r := r + SquaredGap(a[j], b[j]);
    }
    assert a[..|a|] == a && b[..|b|] == b;
  }

  // compute_vecs_l2sq
  method VecsL2Sq(m: seq<Row>) returns (norms: seq<real>)
    ensures |norms| == |m| && forall i :: 0 <= i < |m| ==> norms[i] == Dot(m[i], m[i])
  {
    norms := [];
    for i := 0 to |m|
      invariant |norms| == i && forall k :: 0 <= k < i ==> norms[k] == Dot(m[k], m[k])
    {
      var x := DotLoop(m[i], m[i]);
      norms := norms + [x];
    }
  }

  /** `sel` lists k closest centers of x: distinct, by increasing distance, none closer left out. */
  ghost predicate KNearest(x: Row, centers: seq<Row>, k: nat, sel: seq<nat>)
    requires Rows(centers, |x|)
  {
    && |sel| == k
    && Distinct(sel)
    && (forall i :: 0 <= i < k ==> sel[i] < |centers|)
    && (forall i, j :: 0 <= i < j < k ==> DistSq(x, centers[sel[i]]) <= DistSq(x, centers[sel[j]]))
    && (forall i, c :: 0 <= i < k && 0 <= c < |centers| && c !in sel
          ==> DistSq(x, centers[sel[i]]) <= DistSq(x, centers[c]))
  }

  // The scan for a single center resolves ties towards the lower number.
  ghost predicate FirstNearest(x: Row, centers: seq<Row>, best: nat)
    requires Rows(centers, |x|)
  {
    best < |centers| && forall c :: 0 <= c < best ==> DistSq(x, centers[best]) < DistSq(x, centers[c])
  }

  // One row of the distance matrix, as the three products build it.
  method DistanceRow(x: Row, docNorm: real, centers: seq<Row>, centerNorms: seq<real>) returns (row: seq<real>)
    requires Rows(centers, |x|) && docNorm == Dot(x, x)
    requires |centerNorms| == |centers|
    requires forall j :: 0 <= j < |centers| ==> centerNorms[j] == Dot(centers[j], centers[j])
    ensures |row| == |centers| && forall j :: 0 <= j < |centers| ==> row[j] == DistSq(x, centers[j])
  {
    row := [];
    for j := 0 to |centers|
      invariant |row| == j && forall t :: 0 <= t < j ==> row[t] == DistSq(x, centers[t])
    {
      var xy := DotLoop(x, centers[j]);
      NormsExpansion(x, centers[j]);
      row := row + [docNorm * 1.0 + 1.0 * centerNorms[j] + -2.0 * xy];
    }
  }

  // The scan used when one center is wanted: the first minimum.
  method ArgMin(row: seq<real>) returns (best: nat)
    requires |row| > 0
    ensures best < |row| && forall j :: 0 <= j < |row| ==> row[best] <= row[j]
    ensures forall j :: 0 <= j < best ==> row[best] < row[j]
  {
    best := 0;
    for j := 1 to |row|
      invariant best < j
      invariant forall t :: 0 <= t < j ==> row[best] <= row[t]
      invariant forall t :: 0 <= t < best ==> row[best] < row[t]
    {
      if row[j] < row[best] {
        best := j;
      }
    }
  }

  // k pops of the priority queue over all centers: any order among equal distances.
  method TopK(row: seq<real>, k: nat) returns (sel: seq<nat>)
    requires k <= |row|
    ensures |sel| == k && Distinct(sel) && forall i :: 0 <= i < k ==> sel[i] < |row|
    ensures forall i, j :: 0 <= i < j < k ==> row[sel[i]] <= row[sel[j]]
    ensures forall i, c :: 0 <= i < k && 0 <= c < |row| && c !in sel ==> row[sel[i]] <= row[c]
  {
    sel := [];
    ghost var all := AllIndices(|row|);
    for j := 0 to k
      invariant |sel| == j && Distinct(sel) && forall i :: 0 <= i < j ==> sel[i] < |row|
      invariant forall a, b :: 0 <= a < b < j ==> row[sel[a]] <= row[sel[b]]
      invariant forall i, c :: 0 <= i < j && 0 <= c < |row| && c !in sel ==> row[sel[i]] <= row[c]
    {
      var top := PopMin(row, sel);
      ghost var before := sel;
      sel := sel + [top];
      assert forall c :: c !in sel ==> c !in before;
    }
  }

  // The smallest entry not taken yet.
  method PopMin(row: seq<real>, taken: seq<nat>) returns (top: nat)
    requires |taken| < |row| && Distinct(taken) && forall i :: 0 <= i < |taken| ==> taken[i] < |row|
    ensures top < |row| && top !in taken
    ensures forall c :: 0 <= c < |row| && c !in taken ==> row[top] <= row[c]
  {
    var free := FreeIndex(|row|, taken);
    top := free;
    for c := 0 to |row|
      invariant top < |row| && top !in taken
      invariant forall t :: 0 <= t < c && t !in taken ==> row[top] <= row[t]
    {
      if c !in taken && row[c] < row[top] {
        top := c;
      }
    }
  }

  method FreeIndex(n: nat, taken: seq<nat>) returns (free: nat)
    requires |taken| < n && Distinct(taken) && forall i :: 0 <= i < |taken| ==> taken[i] < n
    ensures free < n && free !in taken
  {
    if forall c :: 0 <= c < n ==> c in taken {
      DistinctCard(taken);
      assert Elems(taken) == AllIndices(n);
    }
    free :| 0 <= free < n && free !in taken;
  }

  function AllIndices(n: nat): (r: set<nat>)
    ensures |r| == n && forall x: nat :: x in r <==> x < n
  {
    if n == 0 then {} else AllIndices(n - 1) + {n - 1}
  }

  // One point's selection from its row of distances.
  method Select(x: Row, centers: seq<Row>, k: nat, row: seq<real>) returns (sel: seq<nat>)
    requires Rows(centers, |x|) && k <= |centers| == |row|
    requires forall j :: 0 <= j < |row| ==> row[j] == DistSq(x, centers[j])
    ensures KNearest(x, centers, k, sel) && (k == 1 ==> FirstNearest(x, centers, sel[0]))
  {
    if k == 1 {
      var best := ArgMin(row);
      sel := [best];
    } else {
      sel := TopK(row, k);
    }
  }

  function Repeat(x: nat, n: nat): (r: seq<nat>)
    ensures |r| == n && forall i :: 0 <= i < n ==> r[i] == x
  {
    seq(n, _ => x)
  }

  // The points that select c, in order, once for each time they do.
  ghost function PointsOf(closest: seq<seq<nat>>, c: nat): seq<nat> {
    if closest == [] then []
    else
      var n := |closest| - 1;
      PointsOf(closest[..n], c) + Repeat(n, multiset(closest[n])[c])
  }

  lemma PointsOfNext(closest: seq<seq<nat>>, i: nat, c: nat)
    requires i < |closest|
    ensures PointsOf(closest[..i + 1], c) == PointsOf(closest[..i], c) + Repeat(i, multiset(closest[i])[c])
  {
    assert closest[..i + 1][..i] == closest[..i];
  }

  lemma OnceMore(sel: seq<nat>, l: nat, c: nat)
    requires l < |sel|
    ensures multiset(sel[..l + 1])[c] == multiset(sel[..l])[c] + if sel[l] == c then 1 else 0
  {
    assert sel[..l + 1] == sel[..l] + [sel[l]];
  }

  // One point enters the lists of the centers it selects.
  method InvertPoint(inverted: seq<seq<nat>>, i: nat, sel: seq<nat>) returns (r: seq<seq<nat>>)
    requires forall l :: 0 <= l < |sel| ==> sel[l] < |inverted|
    ensures |r| == |inverted|
    ensures forall c :: 0 <= c < |r| ==> r[c] == inverted[c] + Repeat(i, multiset(sel)[c])
  {
    r := inverted;
    for l := 0 to |sel|
      invariant |r| == |inverted|
      invariant forall c :: 0 <= c < |r| ==> r[c] == inverted[c] + Repeat(i, multiset(sel[..l])[c])
    {
      forall c | 0 <= c < |r|
        ensures multiset(sel[..l + 1])[c] == multiset(sel[..l])[c] + if sel[l] == c then 1 else 0
      {
        OnceMore(sel, l, c);
      }
      r := r[sel[l] := r[sel[l]] + [i]];
    }
    assert sel[..|sel|] == sel;
  }

  // The inverted index of a selection; parallel appends are taken in the order of the points.
  method Invert(closest: seq<seq<nat>>, k: nat) returns (inverted: seq<seq<nat>>)
    requires forall i, l :: 0 <= i < |closest| && 0 <= l < |closest[i]| ==> closest[i][l] < k
    ensures |inverted| == k && forall c :: 0 <= c < k ==> inverted[c] == PointsOf(closest, c)
  {
    inverted := seq(k, _ => []);
    for i := 0 to |closest|
      invariant |inverted| == k && forall c :: 0 <= c < k ==> inverted[c] == PointsOf(closest[..i], c)
    {
      forall c | 0 <= c < k
        ensures PointsOf(closest[..i + 1], c) == PointsOf(closest[..i], c) + Repeat(i, multiset(closest[i])[c])
      {
        PointsOfNext(closest, i, c);
      }
      inverted := InvertPoint(inverted, i, closest[i]);
    }
    assert closest[..|closest|] == closest;
  }

  // The k nearest centers of every point; for one center the lowest-numbered nearest.
  ghost predicate AllNearest(data: seq<Row>, dim: nat, centers: seq<Row>, k: nat, closest: seq<seq<nat>>)
    requires Rows(data, dim) && Rows(centers, dim)
  {
    && |closest| == |data|
    && forall i :: 0 <= i < |data| ==>
         KNearest(data[i], centers, k, closest[i]) && (k == 1 ==> FirstNearest(data[i], centers, closest[i][0]))
  }

  // compute_closest_centers_in_block, the whole input being one block.
  method ClosestInBlock(data: seq<Row>, dim: nat, centers: seq<Row>, k: nat, norms: seq<real>)
    returns (closest: seq<seq<nat>>)
    requires Rows(data, dim) && Rows(centers, dim) && k <= |centers|
    requires |norms| == |data| && forall i :: 0 <= i < |data| ==> norms[i] == Dot(data[i], data[i])
    ensures AllNearest(data, dim, centers, k, closest)
  {
    closest := [];
    var centerNorms := VecsL2Sq(centers);
    for i := 0 to |data|
      invariant |closest| == i
      invariant forall t :: 0 <= t < i ==>
                  && KNearest(data[t], centers, k, closest[t])
                  && (k == 1 ==> FirstNearest(data[t], centers, closest[t][0]))
    {
      var row := DistanceRow(data[i], norms[i], centers, centerNorms);
      var sel := Select(data[i], centers, k, row);
      closest := closest + [sel];
    }
  }

  /** compute_closest_centers: for every point its k nearest centers in true squared distance, and the inverted index of
      that selection. When k exceeds the number of centers nothing is written (ok is false). */
  method ComputeClosestCenters(data: seq<Row>, dim: nat, centers: seq<Row>, k: nat, norms: seq<real>)
    returns (ok: bool, closest: seq<seq<nat>>, inverted: seq<seq<nat>>)
    requires Rows(data, dim) && Rows(centers, dim)
    requires |norms| == |data| && forall i :: 0 <= i < |data| ==> norms[i] == Dot(data[i], data[i])
    ensures ok <==> k <= |centers|
    ensures ok ==> AllNearest(data, dim, centers, k, closest)
    ensures ok ==> |inverted| == |centers| && forall c :: 0 <= c < |centers| ==> inverted[c] == PointsOf(closest, c)
  {
    closest, inverted := [], [];
    ok := k <= |centers|;
    if !ok {
      return;
    }
    closest := ClosestInBlock(data, dim, centers, k, norms);
    assert forall i :: 0 <= i < |closest| ==> KNearest(data[i], centers, k, closest[i]);
    inverted := Invert(closest, |centers|);
  }
}
