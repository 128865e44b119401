/** Reducing inner-product search to L2 search in exact arithmetic (prepare_base_for_inner_products;
    include/utils.h:845-922): rows are scaled by the largest norm and padded to unit length. */
module InnerProduct {
  import opened Blocks
  import opened ClosestCenters
  import opened NeighborOrder
  import opened Wrappers

  const BLOCK_SIZE: nat := 100000

  // y times m is x.
  predicate ScalesTo(y: real, m: real, x: real) {
    y * m == x
  }

  ghost predicate IsSqrt(sqrt: real -> real) {
    forall x: real :: x >= 0.0 ==> sqrt(x) >= 0.0 && ScalesTo(sqrt(x), sqrt(x), x)
  }

  // m is the largest squared norm among the first n rows, 0 for none.
  ghost predicate IsMaxNorm(data: seq<Row>, n: nat, m: real)
    requires n <= |data|
  {
    && m >= 0.0
    && (forall i :: 0 <= i < n ==> Dot(data[i], data[i]) <= m)
    && (m == 0.0 || exists i :: 0 <= i < n && Dot(data[i], data[i]) == m)
  }

  ghost predicate IsLargestNorm(data: seq<Row>, root: real) {
    root >= 0.0 && IsMaxNorm(data, |data|, root * root)
  }

  // Row r, scaled by 1/m and padded to unit length.
  ghost predicate Lifted(x: Row, m: real, r: Row) {
    && |r| == |x| + 1
    && (forall j :: 0 <= j < |x| ==> ScalesTo(r[j], m, x[j]))
    && r[|x|] >= 0.0
    && Dot(r, r) == 1.0
  }

  ghost predicate AllLifted(data: seq<Row>, m: real, out: seq<Row>) {
    |out| == |data| && forall i :: 0 <= i < |data| ==> Lifted(data[i], m, out[i])
  }

  lemma {:induction false} SquareNonNegative(x: Row)
    ensures Dot(x, x) >= 0.0
  {
    if x != [] {
      SquareNonNegative(x[..|x| - 1]);
      assert x[|x| - 1] * x[|x| - 1] >= 0.0;
    }
  }

  // Scaling one side scales the product.
  lemma {:induction false} DotScaled(q: Row, x: Row, r: Row, m: real)
    requires |q| == |x| == |r| && forall j :: 0 <= j < |x| ==> ScalesTo(r[j], m, x[j])
    ensures ScalesTo(Dot(q, r), m, Dot(q, x))
  {
    if x != [] {
      var n := |x| - 1;
      DotScaled(q[..n], x[..n], r[..n], m);
      assert (q[n] * r[n]) * m == q[n] * (r[n] * m);
    }
  }

  lemma {:induction false} DotSwap(a: Row, b: Row)
    requires |a| == |b|
    ensures Dot(a, b) == Dot(b, a)
  {
    if a != [] {
      DotSwap(a[..|a| - 1], b[..|b| - 1]);
    }
  }

  lemma DotLast(a: Row, b: Row, s: real)
    requires |a| == |b| > 0 && ScalesTo(a[|a| - 1], b[|b| - 1], s)
    ensures Dot(a, b) == Dot(a[..|a| - 1], b[..|b| - 1]) + s
  {
  }

  // A zero last coordinate drops out.
  lemma DotPadded(q: Row, r: Row)
    requires |r| == |q| + 1
    ensures Dot(q + [0.0], r) == Dot(q, r[..|q|]) && Dot(q + [0.0], q + [0.0]) == Dot(q, q)
  {
    var p := q + [0.0];
    assert p[..|q|] == q;
    DotLast(p, r, 0.0);
    DotLast(p, p, 0.0);
  }

  // The squared distance of a padded query to a unit row falls linearly with their product.
  lemma DistanceOfPadded(q: Row, r: Row)
    requires |r| == |q| + 1 && Dot(r, r) == 1.0
    ensures DistSq(q + [0.0], r) == Dot(q, q) + 1.0 - 2.0 * Dot(q, r[..|q|])
  {
    NormsExpansion(q + [0.0], r);
    DotPadded(q, r);
  }

  lemma ScaledOrder(m: real, a: real, b: real, p: real, q: real)
    requires m > 0.0 && ScalesTo(a, m, p) && ScalesTo(b, m, q)
    ensures a <= b <==> p <= q
  {
    if a <= b {
      assert m * (b - a) >= 0.0;
    } else {
      assert m * (a - b) > 0.0;
    }
  }

  /** L2 order on the lifted rows is the reverse of inner-product order on the originals. */
  lemma OrderReversed(q: Row, x: Row, y: Row, m: real, rx: Row, ry: Row)
    requires m > 0.0 && |q| == |x| == |y| && Lifted(x, m, rx) && Lifted(y, m, ry)
    ensures DistSq(q + [0.0], rx) <= DistSq(q + [0.0], ry) <==> Dot(q, x) >= Dot(q, y)
  {
    DotScaled(q, x, rx[..|q|], m);
    DotScaled(q, y, ry[..|q|], m);
    ScaledOrder(m, Dot(q, ry[..|q|]), Dot(q, rx[..|q|]), Dot(q, y), Dot(q, x));
    DistanceOfPadded(q, rx);
    DistanceOfPadded(q, ry);
  }

  // `sel` lists k rows of largest inner product with q, best first.
  ghost predicate KBestProducts(q: Row, data: seq<Row>, k: nat, sel: seq<nat>)
    requires Rows(data, |q|)
  {
    && |sel| == k && Distinct(sel)
    && (forall i :: 0 <= i < k ==> sel[i] < |data|)
    && (forall i, j :: 0 <= i < j < k ==> Dot(q, data[sel[i]]) >= Dot(q, data[sel[j]]))
    && (forall i, c :: 0 <= i < k && 0 <= c < |data| && c !in sel ==> Dot(q, data[sel[i]]) >= Dot(q, data[c]))
  }

  lemma RowsOfLifted(q: Row, data: seq<Row>, m: real, out: seq<Row>)
    requires Rows(data, |q|) && AllLifted(data, m, out)
    ensures Rows(out, |q + [0.0]|)
  {
  }

  /** The k nearest lifted rows are exactly the k rows of largest inner product. */
  lemma NearestIsBestProduct(q: Row, data: seq<Row>, m: real, out: seq<Row>, k: nat, sel: seq<nat>)
    requires m > 0.0 && Rows(data, |q|) && AllLifted(data, m, out)
    ensures Rows(out, |q + [0.0]|) && (KNearest(q + [0.0], out, k, sel) <==> KBestProducts(q, data, k, sel))
  {
    RowsOfLifted(q, data, m, out);
    forall i: nat, j: nat | i < |data| && j < |data|
      ensures DistSq(q + [0.0], out[i]) <= DistSq(q + [0.0], out[j]) <==> Dot(q, data[i]) >= Dot(q, data[j])
    {
      OrderReversed(q, data[i], data[j], m, out[i], out[j]);
    }
  }

  // norms[start + p] += x * x, coordinate by coordinate
  method AddNorm(x: Row, norms: array<real>, at: nat)
    requires at < norms.Length && norms[at] == 0.0
    modifies norms
    ensures norms[at] == Dot(x, x)
    ensures forall i :: 0 <= i < norms.Length && i != at ==> norms[i] == old(norms[i])
  {
    for j := 0 to |x|
      invariant norms[at] == Dot(x[..j], x[..j])
      invariant forall i :: 0 <= i < norms.Length && i != at ==> norms[i] == old(norms[i])
    {
      assert x[..j + 1][..j] == x[..j];
      norms[at] := norms[at] + x[j] * x[j];
    }
    assert x[..|x|] == x;
  }

  // Norms known for the first n rows, zero for the others.
  ghost predicate NormsUpTo(data: seq<Row>, norms: seq<real>, n: nat) {
    && n <= |data| == |norms|
    && (forall i :: 0 <= i < n ==> norms[i] == Dot(data[i], data[i]))
    && (forall i :: n <= i < |norms| ==> norms[i] == 0.0)
  }

  method NormsOfBlock(block: seq<Row>, data: seq<Row>, at: nat, norms: array<real>, m0: real) returns (maxNorm: real)
    requires at + |block| <= |data| && block == data[at..at + |block|]
    requires NormsUpTo(data, norms[..], at) && IsMaxNorm(data, at, m0)
    modifies norms
    ensures NormsUpTo(data, norms[..], at + |block|) && IsMaxNorm(data, at + |block|, maxNorm)
  {
    maxNorm := m0;
    for p := 0 to |block|
      invariant NormsUpTo(data, norms[..], at + p) && IsMaxNorm(data, at + p, maxNorm)
    {
      assert block[p] == data[at + p];
      SquareNonNegative(block[p]);
      AddNorm(block[p], norms, at + p);
      maxNorm := if maxNorm > norms[at + p] then maxNorm else norms[at + p];
    }
  }

  method FirstPass(reader: RowReader<Row>, data: seq<Row>, norms: array<real>, size: nat) returns (maxNorm: real)
    requires reader.rows == data && reader.next == 0 && size > 0 && NormsUpTo(data, norms[..], 0)
    modifies reader, norms
    ensures NormsUpTo(data, norms[..], |data|) && IsMaxNorm(data, |data|, maxNorm)
  {
    maxNorm := 0.0;
    BlocksTile(|data|, size, 0);
    for b := 0 to DivRoundUp(|data|, size)
      invariant reader.next == BlockStart(|data|, size, b)
      invariant NormsUpTo(data, norms[..], reader.next) && IsMaxNorm(data, reader.next, maxNorm)
    {
      BlocksTile(|data|, size, b);
      var startId, endId := b * size, BlockStart(|data|, size, b + 1);
      var block := reader.Read(endId - startId);
      maxNorm := NormsOfBlock(block, data, startId, norms, maxNorm);
    }
  }

  // One output row.
  method Lift(x: Row, norm: real, m: real, sqrt: real -> real) returns (r: Row)
    requires IsSqrt(sqrt) && norm == Dot(x, x) && m > 0.0 && norm <= m * m
    ensures Lifted(x, m, r)
  {
    var k := m * m;
    r := [];
    for j := 0 to |x|
      invariant |r| == j && forall t :: 0 <= t < j ==> ScalesTo(r[t], m, x[t])
    {
      Divided(x[j], m);
      r := r + [x[j] / m];
    }
    ghost var y := r;
    UnitNorm(x, y, norm, m, k);
    var res := 1.0 - norm / k;
    var last := if res <= 0.0 then 0.0 else sqrt(res);
    r := r + [last];
    assert r[..|x|] == y;
    DotLast(r, r, last * last);
  }

  lemma Divided(x: real, m: real)
    requires m > 0.0
    ensures ScalesTo(x / m, m, x)
  {
  }

  lemma UnitNorm(x: Row, y: Row, norm: real, m: real, k: real)
    requires m > 0.0 && norm == Dot(x, x) && ScalesTo(m, m, k) && norm <= k
    requires |y| == |x| && forall j :: 0 <= j < |x| ==> ScalesTo(y[j], m, x[j])
    ensures k > 0.0 && Dot(y, y) == norm / k <= 1.0
  {
    DotScaled(y, x, y, m);
    DotScaled(x, x, y, m);
    DotSwap(x, y);
    Rescale(Dot(y, y), Dot(y, x), norm, m, k);
  }

  lemma Rescale(d: real, e: real, n: real, m: real, k: real)
    requires m > 0.0 && ScalesTo(m, m, k) && ScalesTo(d, m, e) && ScalesTo(e, m, n) && n <= k
    ensures k > 0.0 && d == n / k <= 1.0
  {
    ScaledOrder(m, m, 0.0, k, 0.0);
    assert d * (m * m) == (d * m) * m;
    Inverse(d, k, n);
    ScaledOrder(k, d, 1.0, n, k);
  }

  lemma Inverse(y: real, k: real, x: real)
    requires k > 0.0 && ScalesTo(y, k, x)
    ensures y == x / k
  {
  }

  method SecondPass(reader: RowReader<Row>, data: seq<Row>, norms: array<real>, size: nat, m: real, sqrt: real -> real)
    returns (out: seq<Row>)
    requires reader.rows == data && reader.next == 0 && size > 0 && NormsUpTo(data, norms[..], |data|)
    requires IsSqrt(sqrt) && m > 0.0 && IsLargestNorm(data, m)
    modifies reader
    ensures AllLifted(data, m, out)
  {
    out := [];
    BlocksTile(|data|, size, 0);
    for b := 0 to DivRoundUp(|data|, size)
      invariant reader.next == BlockStart(|data|, size, b)
      invariant AllLifted(data[..reader.next], m, out)
    {
      BlocksTile(|data|, size, b);
      var startId, endId := b * size, BlockStart(|data|, size, b + 1);
      var block := reader.Read(endId - startId);
      var outBlock := LiftBlock(block, norms[startId..endId], m, sqrt);
      assert data[..endId] == data[..startId] + block;
      out := out + outBlock;
    }
    assert data[..|data|] == data;
  }

  method LiftBlock(block: seq<Row>, norms: seq<real>, m: real, sqrt: real -> real) returns (out: seq<Row>)
    requires IsSqrt(sqrt) && m > 0.0 && |norms| == |block|
    requires forall i :: 0 <= i < |block| ==> norms[i] == Dot(block[i], block[i]) && norms[i] <= m * m
    ensures AllLifted(block, m, out)
  {
    out := [];
    for p := 0 to |block|
      invariant |out| == p && forall i :: 0 <= i < p ==> Lifted(block[i], m, out[i])
    {
      var r := Lift(block[p], norms[p], m, sqrt);
      out := out + [r];
    }
  }

  lemma MaxNormRoot(data: seq<Row>, m: real, root: real)
    requires IsMaxNorm(data, |data|, m) && root >= 0.0 && ScalesTo(root, root, m)
    ensures IsLargestNorm(data, root)
    ensures root == 0.0 <==> forall i :: 0 <= i < |data| ==> Dot(data[i], data[i]) == 0.0
  {
    forall i | 0 <= i < |data| ensures Dot(data[i], data[i]) >= 0.0 {
      SquareNonNegative(data[i]);
    }
    SquareZero(root, m);
  }

  lemma SquareZero(x: real, m: real)
    requires ScalesTo(x, x, m)
    ensures m == 0.0 <==> x == 0.0
  {
    if x == 0.0 {
      assert x * x == 0.0;
    } else if x > 0.0 {
      ScaledOrder(x, x, 0.0, m, 0.0);
    } else {
      assert (-x) * (-x) == m;
      ScaledOrder(-x, -x, 0.0, m, 0.0);
    }
  }

  /** prepare_base_for_inner_products: returns the largest norm and the lifted rows. None stands for the output of a
      base without a nonzero row, where every quotient is 0/0. */
  method PrepareBase(data: seq<Row>, dim: nat, sqrt: real -> real) returns (maxNorm: real, out: Option<seq<Row>>)
    requires Rows(data, dim) && |data| > 0 && IsSqrt(sqrt)
    ensures IsLargestNorm(data, maxNorm)
    ensures out.None? <==> forall i :: 0 <= i < |data| ==> Dot(data[i], data[i]) == 0.0
    ensures out.Some? ==> maxNorm > 0.0 && Rows(out.value, dim + 1) && AllLifted(data, maxNorm, out.value)
  {
    var reader := new RowReader(data);
    var size := BlockSize(|data|, BLOCK_SIZE);
    var norms := new real[|data|](_ => 0.0);
    var m := FirstPass(reader, data, norms, size);
    maxNorm := sqrt(m);
    MaxNormRoot(data, m, maxNorm);
    if maxNorm == 0.0 {
      return maxNorm, None;
    }
    reader.Rewind();
    var rows := SecondPass(reader, data, norms, size, maxNorm, sqrt);
    out := Some(rows);
  }
}
