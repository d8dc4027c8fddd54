/**
 * `ArrayComparator`: arrays ordered lexicographically, each element compared by a given element
 * comparator, with null arrays ordered by the null-safe base (nulls first).  The elements' `equals`
 * and the element comparator are the caller's code and are parameters here; `x.equals(null)` is
 * false, as the contract of `Object.equals` demands.
 */
module ArrayComparator {
  import opened Wrappers
  import opened JStrings
  import opened NullSafeComparator

  /** `x.equals(y)` for a non-null receiver `x`. */
  predicate ElementEquals<T>(eq: (T, T) -> bool, x: T, y: Option<T>) {
    y.Some? && eq(x, y.value)
  }

  /** The elements before `k` are non-null in `o1` and equal to their partners in `o2`. */
  predicate EqualUpTo<T>(o1: seq<Option<T>>, o2: seq<Option<T>>, eq: (T, T) -> bool, from: nat, k: nat)
    requires k <= |o1| && k <= |o2|
  {
    forall i :: from <= i < k ==> o1[i].Some? && ElementEquals(eq, o1[i].value, o2[i])
  }

  /** `compareNonNull(o1, o2)` once the common prefix before `pos` has been skipped. */
  function Lexicographic<T>(o1: seq<Option<T>>, o2: seq<Option<T>>, eq: (T, T) -> bool,
                            cmp: (Option<T>, Option<T>) -> int, pos: nat): Result<int, Exception>
    requires pos <= |o1| && pos <= |o2|
    decreases |o1| - pos
  {
    if pos < |o1| && pos < |o2| && o1[pos].None? then Err(NullPointerException)
    else if pos < |o1| && pos < |o2| && ElementEquals(eq, o1[pos].value, o2[pos]) then
      Lexicographic(o1, o2, eq, cmp, pos + 1)
    else if |o1| == pos && |o2| > pos then Ok(-1)
    else if |o2| == pos && |o1| > pos then Ok(1)
    else if |o1| == pos && |o2| == pos then Ok(0)
    else Ok(cmp(o1[pos], o2[pos]))
  }

  /** `compareNonNull`: the loop skips equal elements, then the lengths or the element comparator decide. */
  method CompareNonNull<T>(o1: seq<Option<T>>, o2: seq<Option<T>>, eq: (T, T) -> bool,
                           cmp: (Option<T>, Option<T>) -> int) returns (r: Result<int, Exception>)
    ensures r == Lexicographic(o1, o2, eq, cmp, 0)
  {
    var pos := 0;
    while pos < |o1| && pos < |o2|
      invariant pos <= |o1| && pos <= |o2|
      invariant Lexicographic(o1, o2, eq, cmp, pos) == Lexicographic(o1, o2, eq, cmp, 0)
    {
      if o1[pos].None? {
        return Err(NullPointerException);
      }
      if !ElementEquals(eq, o1[pos].value, o2[pos]) {
        break;
      }
      pos := pos + 1;
    }
    if |o1| == pos && |o2| > pos {
      return Ok(-1);
    }
    if |o2| == pos && |o1| > pos {
      return Ok(1);
    }
    if |o1| == pos && |o2| == pos {
      return Ok(0);
    }
    r := Ok(cmp(o1[pos], o2[pos]));
  }

  /** `compare(o1, o2)`: null arrays first, then `compareNonNull`. */
  method Compare<T>(o1: Option<seq<Option<T>>>, o2: Option<seq<Option<T>>>, eq: (T, T) -> bool,
                    cmp: (Option<T>, Option<T>) -> int) returns (r: Result<int, Exception>)
    ensures r == NullSafeComparator.Compare(DEFAULT_BEHAVIOR, o1, o2, (a, b) => Lexicographic(a, b, eq, cmp, 0))
  {
    if o1.None? || o2.None? {
      r := NullSafeComparator.Compare(DEFAULT_BEHAVIOR, o1, o2, (a, b) => Lexicographic(a, b, eq, cmp, 0));
    } else {
      r := CompareNonNull(o1.value, o2.value, eq, cmp);
    }
  }

  /** Skipping an equal stretch does not change the outcome. */
  lemma {:induction false} SkipEqual<T>(o1: seq<Option<T>>, o2: seq<Option<T>>, eq: (T, T) -> bool,
                                        cmp: (Option<T>, Option<T>) -> int, from: nat, k: nat)
    requires from <= k <= |o1| && k <= |o2|
    requires EqualUpTo(o1, o2, eq, from, k)
    ensures Lexicographic(o1, o2, eq, cmp, from) == Lexicographic(o1, o2, eq, cmp, k)
    decreases k - from
  {
    if from < k {
      SkipEqual(o1, o2, eq, cmp, from + 1, k);
    }
  }

  /** At the first index where the arrays differ, the element comparator decides. */
  lemma FirstDifference<T>(o1: seq<Option<T>>, o2: seq<Option<T>>, eq: (T, T) -> bool,
                           cmp: (Option<T>, Option<T>) -> int, k: nat)
    requires k < |o1| && k < |o2|
    requires EqualUpTo(o1, o2, eq, 0, k)
    requires o1[k].Some? && !ElementEquals(eq, o1[k].value, o2[k])
    ensures Lexicographic(o1, o2, eq, cmp, 0) == Ok(cmp(o1[k], o2[k]))
  {
    SkipEqual(o1, o2, eq, cmp, 0, k);
  }

  /** A proper prefix sorts first and the longer array after; equal arrays compare equal. */
  lemma PrefixOrder<T>(o1: seq<Option<T>>, o2: seq<Option<T>>, eq: (T, T) -> bool, cmp: (Option<T>, Option<T>) -> int)
    ensures |o1| < |o2| && EqualUpTo(o1, o2, eq, 0, |o1|) ==> Lexicographic(o1, o2, eq, cmp, 0) == Ok(-1)
    ensures |o2| < |o1| && EqualUpTo(o1, o2, eq, 0, |o2|) ==> Lexicographic(o1, o2, eq, cmp, 0) == Ok(1)
    ensures |o1| == |o2| && EqualUpTo(o1, o2, eq, 0, |o1|) ==> Lexicographic(o1, o2, eq, cmp, 0) == Ok(0)
  {
    if |o1| <= |o2| && EqualUpTo(o1, o2, eq, 0, |o1|) {
      SkipEqual(o1, o2, eq, cmp, 0, |o1|);
    }
    if |o2| < |o1| && EqualUpTo(o1, o2, eq, 0, |o2|) {
      SkipEqual(o1, o2, eq, cmp, 0, |o2|);
    }
  }

  /** A null element of `o1` reached by the loop throws from `equals`. */
  lemma NullElementThrows<T>(o1: seq<Option<T>>, o2: seq<Option<T>>, eq: (T, T) -> bool,
                             cmp: (Option<T>, Option<T>) -> int, k: nat)
    requires k < |o1| && k < |o2|
    requires EqualUpTo(o1, o2, eq, 0, k) && o1[k].None?
    ensures Lexicographic(o1, o2, eq, cmp, 0) == Err(NullPointerException)
  {
    SkipEqual(o1, o2, eq, cmp, 0, k);
  }

  /** An array of non-null elements equals itself when `equals` is reflexive. */
  lemma Reflexive<T>(o: seq<Option<T>>, eq: (T, T) -> bool, cmp: (Option<T>, Option<T>) -> int)
    requires forall x :: eq(x, x)
    requires forall i :: 0 <= i < |o| ==> o[i].Some?
    ensures Lexicographic(o, o, eq, cmp, 0) == Ok(0)
  {
    PrefixOrder(o, o, eq, cmp);
  }

  /**
   * For arrays without null elements, a symmetric `equals` and an antisymmetric element comparator
   * give an antisymmetric array order.
   */
  lemma {:induction false} Antisymmetric<T>(o1: seq<Option<T>>, o2: seq<Option<T>>, eq: (T, T) -> bool,
                                           cmp: (Option<T>, Option<T>) -> int, pos: nat)
    requires pos <= |o1| && pos <= |o2|
    requires forall i :: 0 <= i < |o1| ==> o1[i].Some?
    requires forall i :: 0 <= i < |o2| ==> o2[i].Some?
    requires forall x, y :: eq(x, y) == eq(y, x)
    requires forall a, b :: Sign(cmp(a, b)) == -Sign(cmp(b, a))
    ensures Lexicographic(o1, o2, eq, cmp, pos).Ok? && Lexicographic(o2, o1, eq, cmp, pos).Ok?
    ensures Sign(Lexicographic(o1, o2, eq, cmp, pos).value) == -Sign(Lexicographic(o2, o1, eq, cmp, pos).value)
    decreases |o1| - pos
  {
    if pos < |o1| && pos < |o2| && ElementEquals(eq, o1[pos].value, o2[pos]) {
      assert ElementEquals(eq, o2[pos].value, o1[pos]);
      Antisymmetric(o1, o2, eq, cmp, pos + 1);
    } else if pos < |o1| && pos < |o2| {
      assert !ElementEquals(eq, o2[pos].value, o1[pos]);
      assert Sign(cmp(o1[pos], o2[pos])) == -Sign(cmp(o2[pos], o1[pos]));
    }
  }
}
