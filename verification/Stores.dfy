/** InMemGraphStore and InMemDataStore (src/in_mem_graph_store.cpp, src/in_mem_data_store.cpp). A vector is a row
    of alignedDim coordinates; the row buffer is fixed-size and rows move by block copies. */
module Stores {

  class GraphStore {
    var graph: seq<seq<nat>>
    var maxObservedDegree: nat

    // No list is longer than the recorded maximum.
    ghost predicate Valid()
      reads this
    {
      forall i :: 0 <= i < |graph| ==> |graph[i]| <= maxObservedDegree
    }

    constructor (totalPoints: nat)
      ensures Valid() && |graph| == totalPoints && forall i :: 0 <= i < totalPoints ==> graph[i] == []
    {
      graph := seq(totalPoints, _ => []);
      maxObservedDegree := 0;
    }

    method AddNeighbour(i: nat, neighbour: nat)
      requires Valid() && i < |graph|
      modifies this
      ensures Valid() && graph == old(graph)[i := old(graph)[i] + [neighbour]]
      ensures maxObservedDegree >= old(maxObservedDegree)
    {
      graph := graph[i := graph[i] + [neighbour]];
      var degree := |graph[i]|;
      if degree > maxObservedDegree {
        maxObservedDegree := degree;
      }
    }

    method ClearNeighbours(i: nat)
      requires Valid() && i < |graph|
      modifies this
      ensures Valid() && graph == old(graph)[i := []] && maxObservedDegree == old(maxObservedDegree)
    {
      graph := graph[i := []];
    }

    method SwapNeighbours(a: nat, b: nat)
      requires Valid() && a < |graph| && b < |graph|
      modifies this
      ensures Valid() && graph == old(graph)[a := old(graph)[b]][b := old(graph)[a]]
      ensures maxObservedDegree == old(maxObservedDegree)
    {
      graph := graph[a := graph[b]][b := graph[a]];
    }

    method SetNeighbours(i: nat, neighbours: seq<nat>)
      requires Valid() && i < |graph|
      modifies this
      ensures Valid() && graph == old(graph)[i := neighbours]
      ensures maxObservedDegree >= old(maxObservedDegree)
    {
      graph := graph[i := neighbours];
      if maxObservedDegree < |neighbours| {
        maxObservedDegree := |neighbours|;
      }
    }
  }

  type Vector = seq<real>

  function ZeroVector(dim: nat): Vector {
    seq(dim, _ => 0.0)
  }

  // What memmove leaves in a buffer.
  function Moved<T>(rows: seq<T>, from: nat, to: nat, n: nat): (r: seq<T>)
    requires from + n <= |rows| && to + n <= |rows|
    ensures |r| == |rows|
    ensures forall i :: 0 <= i < |rows| ==> r[i] == if to <= i < to + n then rows[i - to + from] else rows[i]
  {
    rows[..to] + rows[from..from + n] + rows[to + n..]
  }

  function MovedAndCleared<T>(rows: seq<T>, from: nat, to: nat, n: nat, blank: T): (r: seq<T>)
    requires from + n <= |rows| && to + n <= |rows|
    ensures |r| == |rows|
    ensures forall i :: 0 <= i < |rows| ==>
              r[i] == if to <= i < to + n then rows[i - to + from] else if from <= i < from + n then blank else rows[i]
  {
    seq(|rows|, i requires 0 <= i < |rows| =>
      if to <= i < to + n then rows[i - to + from] else if from <= i < from + n then blank else rows[i])
  }

  // What the distance makes of a row before it is stored: the row divided by its norm for normalised cosine, the row
  // itself for the others. It never changes the length, and zero coordinates stay zero.
  ghost predicate KeepsShape(p: Vector -> Vector) {
    forall v :: |p(v)| == |v| && forall i :: 0 <= i < |v| && v[i] == 0.0 ==> p(v)[i] == 0.0
  }

  type Preparation = p: Vector -> Vector | KeepsShape(p) witness Unprepared

  function Unprepared(v: Vector): Vector {
    v
  }

  class DataStore {
    const dim: nat
    const alignedDim: nat
    const prepare: Preparation
    const data: array<Vector>

    ghost predicate Valid()
      reads this, data
    {
      dim <= alignedDim && forall i :: 0 <= i < data.Length ==> |data[i]| == alignedDim
    }

    constructor (capacity: nat, dim: nat, alignedDim: nat, prepare: Preparation)
      requires dim <= alignedDim
      ensures Valid() && fresh(data) && data.Length == capacity
      ensures this.dim == dim && this.alignedDim == alignedDim && this.prepare == prepare
      ensures forall i :: 0 <= i < capacity ==> data[i] == ZeroVector(alignedDim)
    {
      this.dim, this.alignedDim, this.prepare := dim, alignedDim, prepare;
      data := new Vector[capacity](_ => ZeroVector(alignedDim));
    }

    function Padded(vector: Vector): (r: Vector)
      requires dim <= alignedDim
      ensures |vector| == dim ==>
                |r| == alignedDim && r[..dim] == vector && forall i :: dim <= i < alignedDim ==> r[i] == 0.0
    {
      vector + ZeroVector(alignedDim - dim)
    }

    // The stored row is the vector padded with zeros, prepared for the distance.
    method SetVector(loc: nat, vector: Vector)
      requires Valid() && loc < data.Length && |vector| == dim
      modifies data
      ensures Valid() && data[..] == old(data[..])[loc := prepare(Padded(vector))]
    {
      data[loc] := prepare(Padded(vector));
    }

    // load_impl: rows padded and stored as they are, from 0 on.
    method Load(vectors: seq<Vector>)
      requires Valid() && |vectors| <= data.Length && forall i :: 0 <= i < |vectors| ==> |vectors[i]| == dim
      modifies data
      ensures Valid() && forall i :: 0 <= i < |vectors| ==> data[i] == Padded(vectors[i])
      ensures forall i :: |vectors| <= i < data.Length ==> data[i] == old(data[i])
    {
      for i := 0 to |vectors|
        invariant Valid() && forall k :: 0 <= k < i ==> data[k] == Padded(vectors[k])
        invariant forall k :: |vectors| <= k < data.Length ==> data[k] == old(data[k])
      {
        data[i] := Padded(vectors[i]);
      }
    }

    // save: the first n rows without their padding.
    method Save(n: nat) returns (vectors: seq<Vector>)
      requires Valid() && n <= data.Length
      ensures |vectors| == n && forall i :: 0 <= i < n ==> vectors[i] == data[i][..dim]
    {
      vectors := [];
      for i := 0 to n
        invariant |vectors| == i && forall k :: 0 <= k < i ==> vectors[k] == data[k][..dim]
      {
        vectors := vectors + [data[i][..dim]];
      }
    }

    method GetVector(loc: nat) returns (vector: Vector)
      requires Valid() && loc < data.Length
      ensures vector == data[loc][..dim]
    {
      vector := data[loc][..dim];
    }

    method CopyVectors(from: nat, to: nat, n: nat)
      requires Valid() && from + n <= data.Length && to + n <= data.Length
      modifies data
      ensures Valid() && data[..] == Moved(old(data[..]), from, to, n)
    {
      forall i | 0 <= i < n { data[to + i] := data[from + i]; }
    }

    // The vacated rows that the moved block does not cover are zeroed.
    method MoveVectors(from: nat, to: nat, n: nat)
      requires Valid() && from + n <= data.Length && to + n <= data.Length
      modifies data
      ensures Valid() && data[..] == MovedAndCleared(old(data[..]), from, to, n, ZeroVector(alignedDim))
    {
      if n == 0 || from == to {
        return;
      }
      var clearStart, clearEnd := from, from + n;
      if to < from {
        if clearStart < to + n {
          clearStart := to + n;
        }
      } else {
        if clearEnd > to {
          clearEnd := to;
        }
      }
      CopyVectors(from, to, n);
      ghost var moved := data[..];
      forall i | clearStart <= i < clearEnd { data[i] := ZeroVector(alignedDim); }
      assert forall i :: 0 <= i < data.Length ==>
          data[i] == if clearStart <= i < clearEnd then ZeroVector(alignedDim) else moved[i];
    }
  }
}
