/**
  What several modules share.
 */
module Common {

  datatype Option<T> = None | Some(value: T)

  /** A cleaned path is the sequence of its segments; the root, written "" or "." by the
      program, is the empty sequence. */
  type Path = seq<string>

  lemma SmallerSet<T>(a: set<T>, b: set<T>)
    requires a <= b
    ensures |a| <= |b|
    ensures a != b ==> |a| < |b|
  {
    assert b == a + (b - a);
    assert a != b ==> b - a != {};
  }
}
