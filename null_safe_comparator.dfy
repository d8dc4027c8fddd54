/**
 * `AbstractNullSafeComparator`: `compare` settles every comparison that involves a null by the
 * configured `NullBehavior`, and hands two non-null arguments to `compareNonNull`.
 */
module NullSafeComparator {
  import opened Wrappers
  import opened JStrings

  datatype NullBehavior = NullsSortFirst | NullsSortLast | NullsThrowNullPointerException

  /** The behaviour of the no-argument constructor. */
  const DEFAULT_BEHAVIOR: NullBehavior := NullsSortFirst

  /** The sign of a comparison result. */
  function Sign(x: int): (s: int)
    ensures s == -1 || s == 0 || s == 1
    ensures (s < 0 <==> x < 0) && (s > 0 <==> x > 0)
  {
    if x < 0 then -1 else if x > 0 then 1 else 0
  }

  /** `compare(o1, o2)` with `compareNonNull` given as `nonNull`. */
  function Compare<T>(mode: NullBehavior, o1: Option<T>, o2: Option<T>, nonNull: (T, T) -> Result<int, Exception>)
    : Result<int, Exception>
  {
    if o1.None? then
      if o2.None? then
        if mode == NullsThrowNullPointerException then Err(NullPointerException) else Ok(0)
      else if mode == NullsThrowNullPointerException then Err(NullPointerException)
      else if mode == NullsSortFirst then Ok(-1)
      else Ok(1)
    else if o2.None? then
      if mode == NullsThrowNullPointerException then Err(NullPointerException)
      else if mode == NullsSortFirst then Ok(1)
      else Ok(-1)
    else nonNull(o1.value, o2.value)
  }

  /**
   * How nulls are ordered: two non-null arguments go to `compareNonNull`; two nulls are equal unless
   * the mode throws; a null is below everything under NULLS_SORT_FIRST and above under NULLS_SORT_LAST;
   * under NULLS_THROW any null argument throws.
   */
  lemma NullOrdering<T>(o1: Option<T>, o2: Option<T>, nonNull: (T, T) -> Result<int, Exception>, x: T)
    ensures o1.Some? && o2.Some? ==> forall m :: Compare(m, o1, o2, nonNull) == nonNull(o1.value, o2.value)
    ensures Compare(NullsSortFirst, None, None, nonNull) == Ok(0) && Compare(NullsSortLast, None, None, nonNull) == Ok(0)
    ensures Compare(NullsSortFirst, None, Some(x), nonNull) == Ok(-1) && Compare(NullsSortFirst, Some(x), None, nonNull) == Ok(1)
    ensures Compare(NullsSortLast, None, Some(x), nonNull) == Ok(1) && Compare(NullsSortLast, Some(x), None, nonNull) == Ok(-1)
    ensures o1.None? || o2.None? ==> Compare(NullsThrowNullPointerException, o1, o2, nonNull) == Err(NullPointerException)
  {
  }

  /**
   * If `compareNonNull` is antisymmetric, so is `compare` under either sorting mode: swapping the
   * arguments flips the sign of the result.
   */
  lemma Antisymmetric<T>(mode: NullBehavior, o1: Option<T>, o2: Option<T>, nonNull: (T, T) -> Result<int, Exception>)
    requires mode != NullsThrowNullPointerException
    requires forall x, y :: nonNull(x, y).Ok? <==> nonNull(y, x).Ok?
    requires forall x, y :: nonNull(x, y).Ok? ==> Sign(nonNull(x, y).value) == -Sign(nonNull(y, x).value)
    ensures Compare(mode, o1, o2, nonNull).Ok? <==> Compare(mode, o2, o1, nonNull).Ok?
    ensures Compare(mode, o1, o2, nonNull).Ok? ==>
      Sign(Compare(mode, o1, o2, nonNull).value) == -Sign(Compare(mode, o2, o1, nonNull).value)
  {
  }

  /** A null-free `compareNonNull` makes `compare` total under either sorting mode. */
  lemma SortingModesNeverThrow<T>(mode: NullBehavior, o1: Option<T>, o2: Option<T>, nonNull: (T, T) -> Result<int, Exception>)
    requires mode != NullsThrowNullPointerException
    requires forall x, y :: nonNull(x, y).Ok?
    ensures Compare(mode, o1, o2, nonNull).Ok?
  {
  }
}
