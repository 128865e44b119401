/** The order on candidates (include/neighbor.h) and what "the k closest ids" means.
    A distance is any function from ids to reals: the distances to one fixed query. */
module NeighborOrder {

  datatype Neighbor = Neighbor(id: nat, distance: real, expanded: bool)

  type Distance = nat -> real

  // Neighbor::operator<
  predicate Less(a: Neighbor, b: Neighbor) {
    a.distance < b.distance || (a.distance == b.distance && a.id < b.id)
  }

  // The same order, on ids whose distance is a function of the id.
  predicate Before(d: Distance, a: nat, b: nat) {
    d(a) < d(b) || (d(a) == d(b) && a < b)
  }

  function Ids(s: seq<Neighbor>): (r: seq<nat>)
    ensures |r| == |s|
    ensures forall i {:trigger r[i]} {:trigger s[i]} :: 0 <= i < |s| ==> r[i] == s[i].id
  {
    seq(|s|, i requires 0 <= i < |s| => s[i].id)
  }

  // Strictly increasing in the order, hence duplicate-free.
  ghost predicate Ranked(d: Distance, s: seq<nat>) {
    forall i, j :: 0 <= i < j < |s| ==> Before(d, s[i], s[j])
  }

  // s lists the first k elements of the set "all", in order.
  ghost predicate TopK(d: Distance, s: seq<nat>, all: set<nat>, k: nat) {
    && Ranked(d, s)
    && |s| <= k
    && (forall x :: x in s ==> x in all)
    && (forall x :: x in all && x !in s ==> |s| == k && forall y :: y in s ==> Before(d, y, x))
  }

  // "The first k elements of all" names one sequence.
  lemma TopKUnique(d: Distance, s: seq<nat>, t: seq<nat>, all: set<nat>, k: nat)
    requires TopK(d, s, all, k) && TopK(d, t, all, k)
    ensures s == t
  {
    TopKPrefix(d, s, t, all, k, if |s| <= |t| then |s| else |t|);
    TopKNotLonger(d, s, t, all, k);
    TopKNotLonger(d, t, s, all, k);
  }

  lemma TopKNotLonger(d: Distance, s: seq<nat>, t: seq<nat>, all: set<nat>, k: nat)
    requires TopK(d, s, all, k) && TopK(d, t, all, k) && (|s| <= |t| ==> s == t[..|s|])
    ensures |t| <= |s|
  {
    if |s| < |t| {
      FirstExtraIsNew(d, s, t);
    }
  }

  lemma FirstExtraIsNew(d: Distance, s: seq<nat>, t: seq<nat>)
    requires Ranked(d, t) && |s| < |t| && s == t[..|s|]
    ensures t[|s|] in t && t[|s|] !in s
  {
    assert forall j :: 0 <= j < |s| ==> s[j] == t[j] && s[j] != t[|s|];
  }

  lemma {:induction false} TopKPrefix(d: Distance, s: seq<nat>, t: seq<nat>, all: set<nat>, k: nat, n: nat)
    requires TopK(d, s, all, k) && TopK(d, t, all, k) && n <= |s| && n <= |t|
    ensures s[..n] == t[..n]
  {
    if n > 0 {
      TopKPrefix(d, s, t, all, k, n - 1);
      TopKNotEarlier(d, s, t, all, k, n - 1);
      TopKNotEarlier(d, t, s, all, k, n - 1);
      assert s[..n] == s[..n - 1] + [s[n - 1]];
      assert t[..n] == t[..n - 1] + [t[n - 1]];
    }
  }

  lemma TopKNotEarlier(d: Distance, s: seq<nat>, t: seq<nat>, all: set<nat>, k: nat, i: nat)
    requires TopK(d, s, all, k) && TopK(d, t, all, k) && i < |s| && i < |t| && s[..i] == t[..i]
    ensures !Before(d, s[i], t[i])
  {
    assert forall j :: 0 <= j < i ==> s[j] == s[..i][j] == t[..i][j] == t[j] && s[j] != s[i];
    assert forall j :: i <= j < |t| && t[j] == s[i] ==> !Before(d, s[i], t[i]);
    assert s[i] in all;
    assert t[i] in t;
  }

  function Elems<T(==,!new)>(s: seq<T>): (r: set<T>)
    ensures forall x :: x in r <==> x in s
  {
    set x | x in s
  }

  lemma ElemsConcat(a: seq<nat>, b: seq<nat>)
    ensures Elems(a + b) == Elems(a) + Elems(b)
  {
  }

  ghost predicate Distinct<T>(s: seq<T>) {
    forall i, j :: 0 <= i < j < |s| ==> s[i] != s[j]
  }

  // Two ranked lists of the same ids are equal: what sorting a set returns is determined.
  lemma RankedUnique(d: Distance, s: seq<nat>, t: seq<nat>)
    requires Ranked(d, s) && Ranked(d, t) && Elems(s) == Elems(t)
    ensures s == t
  {
    assert forall x :: x in t ==> x in Elems(t);
    assert forall x :: x in s ==> x in Elems(s);
    TopKUnique(d, s, t, Elems(s), |s| + |t|);
  }

  lemma {:induction false} DistinctCard<T(!new)>(s: seq<T>)
    requires Distinct(s)
    ensures |Elems(s)| == |s|
  {
    if |s| > 0 {
      var t := s[..|s| - 1];
      DistinctCard(t);
      assert s == t + [s[|s| - 1]];
      assert Elems(s) == Elems(t) + {s[|s| - 1]};
    }
  }
}
