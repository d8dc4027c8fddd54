/**
 * `ComparableArrayComparator`: the lexicographic array order of `ArrayComparator` with the
 * elements compared by `ComparableObjectComparator`, i.e. nulls first and otherwise `compareTo`.
 * The source repeats the loop of `ArrayComparator.compareNonNull` word for word; here it is that
 * method, called with the natural-order element comparator.
 */
module ComparableArrayComparator {
  import opened Wrappers
  import opened JStrings
  import opened NullSafeComparator
  import ArrayComparator

  /** `ComparableObjectComparator.compare(a, b)`: nulls first, then `a.compareTo(b)`. */
  function NaturalOrder<T>(compareTo: (T, T) -> int, a: Option<T>, b: Option<T>): int {
    var r := NullSafeComparator.Compare(NullsSortFirst, a, b, (x, y) => Ok(compareTo(x, y)));
    assert r.Ok?;
    r.value
  }

  /** `compareNonNull(o1, o2)` with the natural-order element comparator. */
  method CompareNonNull<T>(o1: seq<Option<T>>, o2: seq<Option<T>>, eq: (T, T) -> bool, compareTo: (T, T) -> int)
    returns (r: Result<int, Exception>)
    ensures r == ArrayComparator.Lexicographic(o1, o2, eq, (a, b) => NaturalOrder(compareTo, a, b), 0)
  {
    r := ArrayComparator.CompareNonNull(o1, o2, eq, (a, b) => NaturalOrder(compareTo, a, b));
  }

  /** The element order: nulls first, two nulls equal, two values by `compareTo`. */
  lemma NaturalOrderCases<T>(compareTo: (T, T) -> int, x: T, y: T)
    ensures NaturalOrder(compareTo, None, None) == 0
    ensures NaturalOrder(compareTo, None, Some(y)) == -1 && NaturalOrder(compareTo, Some(x), None) == 1
    ensures NaturalOrder(compareTo, Some(x), Some(y)) == compareTo(x, y)
  {
  }

  /**
   * A null in `o2` at the first difference sorts `o2` first: `o1[k].equals(null)` is false and the
   * element comparator puts the null first, so the result is 1.
   */
  lemma NullInSecondSortsFirst<T>(o1: seq<Option<T>>, o2: seq<Option<T>>, eq: (T, T) -> bool, compareTo: (T, T) -> int, k: nat)
    requires k < |o1| && k < |o2|
    requires ArrayComparator.EqualUpTo(o1, o2, eq, 0, k)
    requires o1[k].Some? && o2[k].None?
    ensures ArrayComparator.Lexicographic(o1, o2, eq, (a, b) => NaturalOrder(compareTo, a, b), 0) == Ok(1)
  {
    ArrayComparator.FirstDifference(o1, o2, eq, (a, b) => NaturalOrder(compareTo, a, b), k);
  }

  /** With an antisymmetric `compareTo` the element order is antisymmetric too. */
  lemma NaturalOrderAntisymmetric<T>(compareTo: (T, T) -> int, a: Option<T>, b: Option<T>)
    requires forall x, y :: Sign(compareTo(x, y)) == -Sign(compareTo(y, x))
    ensures Sign(NaturalOrder(compareTo, a, b)) == -Sign(NaturalOrder(compareTo, b, a))
  {
  }
}
