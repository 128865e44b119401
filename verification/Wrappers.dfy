/** What several components share: an optional value, and the sizes of nested sets. */
module Wrappers {

  datatype Option<T> = None | Some(value: T)

  lemma CardLess<T>(a: set<T>, b: set<T>)
    requires a < b
    ensures |a| < |b|
  {
    assert b == a + (b - a) && b - a != {};
  }

  lemma CardLe<T>(a: set<T>, b: set<T>)
    requires a <= b
    ensures |a| <= |b|
  {
    if a != b {
      CardLess(a, b);
    }
  }

  // A subset as large as the whole.
  lemma CardSame<T>(a: set<T>, b: set<T>)
    requires a <= b && |b| <= |a|
    ensures a == b
  {
    if a != b {
      CardLess(a, b);
    }
  }
}
