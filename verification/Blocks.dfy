/** DIV_ROUND_UP and ROUND_UP, and reading a file of rows block by block: block b of ceil(n/size) holds the rows
    [b*size, min((b+1)*size, n)). */
module Blocks {
  // include/utils.h:42-44
  function DivRoundUp(x: nat, y: nat): nat
    requires y > 0
  {
    x / y + if x % y != 0 then 1 else 0
  }

  function RoundUp(x: nat, y: nat): nat
    requires y > 0
  {
    DivRoundUp(x, y) * y
  }

  lemma RoundUpCovers(x: nat, y: nat)
    requires y > 0
    ensures RoundUp(x, y) / y == DivRoundUp(x, y)
    ensures x <= RoundUp(x, y) < x + y
  {
    assert x == (x / y) * y + x % y;
    DivUnique(DivRoundUp(x, y), y, 0);
    assert DivRoundUp(x, y) * y == (x / y) * y + if x % y != 0 then y else 0;
  }

  lemma DivUnique(q: nat, y: nat, r: nat)
    requires r < y
    ensures (q * y + r) / y == q && (q * y + r) % y == r
  {
    var d := (q * y + r) / y;
    var m := (q * y + r) % y;
    assert q * y + r == d * y + m;
    if d < q {
      assert (d + 1) * y <= q * y by { MulLe(d + 1, q, y); }
    } else if q < d {
      assert (q + 1) * y <= d * y by { MulLe(q + 1, d, y); }
    }
  }

  lemma MulLe(a: nat, b: nat, y: nat)
    requires a <= b
    ensures a * y <= b * y
  {
  }

  function BlockSize(n: nat, cap: nat): nat {
    if n <= cap then n else cap
  }

  function BlockStart(n: nat, size: nat, b: nat): nat {
    if b * size < n then b * size else n
  }

  // The blocks tile [0, n): each starts where the one before ends, the last one ends at n.
  lemma BlocksTile(n: nat, size: nat, b: nat)
    requires size > 0
    ensures BlockStart(n, size, 0) == 0
    ensures BlockStart(n, size, DivRoundUp(n, size)) == n
    ensures b < DivRoundUp(n, size) ==> BlockStart(n, size, b) == b * size
    ensures b < DivRoundUp(n, size) ==> b * size < BlockStart(n, size, b + 1) <= b * size + size
  {
    RoundUpCovers(n, size);
    if b < DivRoundUp(n, size) {
      MulLe(b + 1, DivRoundUp(n, size), size);
    }
  }

  /** A stream of rows. */
  class RowReader<T> {
    const rows: seq<T>
    var next: nat

    constructor (rows: seq<T>)
      ensures this.rows == rows && next == 0
    {
      this.rows, next := rows, 0;
    }

    method Read(n: nat) returns (block: seq<T>)
      requires next + n <= |rows|
      modifies this
      ensures block == rows[old(next)..old(next) + n] && next == old(next) + n
    {
      block := rows[next..next + n];
      next := next + n;
    }

    method Rewind()
      modifies this
      ensures next == 0
    {
      next := 0;
    }
  }
}
