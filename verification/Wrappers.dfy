/** Option, Result and Outcome, shared by the other modules. */
module Wrappers {

  /** A value that may be absent: an expired weak pointer, an unset optional. */
  datatype Option<+T> = None | Some(value: T)

  /** Either a value or the exception the source would throw instead. */
  datatype Result<+R, +E> = Success(value: R) | Failure(error: E)

  /** Completion of an operation that returns nothing but may throw. */
  datatype Outcome<+E> = Pass | Fail(error: E)

  /** True iff no element of `s` appears twice. */
  predicate NoDuplicates<T(==)>(s: seq<T>)
  {
    forall i, j :: 0 <= i < j < |s| ==> s[i] != s[j]
  }

  /** A duplicate-free sequence splits into a head not in its duplicate-free tail, and back. */
  lemma NoDuplicatesCons<T>(x: T, t: seq<T>)
    ensures NoDuplicates([x] + t) <==> x !in t && NoDuplicates(t)
  {
    var s := [x] + t;
    assert s[1..] == t;
    if x in t {
      var k :| 0 <= k < |t| && t[k] == x;
      assert s[0] == s[k + 1];
    }
    if NoDuplicates(s) {
      forall i, j | 0 <= i < j < |t| ensures t[i] != t[j] {
        assert s[i + 1] == t[i] && s[j + 1] == t[j];
      }
    }
  }
}
