/** `CommonUtils.pagination`: drops the skipped items from the caller's list and returns one page. */
module CommonUtils {
  import opened Wrappers
  import opened JStrings

  /** A mutable `java.util.List` passed by the caller. */
  class JList<T> {
    var elems: seq<T>

    constructor (xs: seq<T>)
      ensures elems == xs
    {
      elems := xs;
    }
  }

  /** `n` clamped to `[0, hi]`: how many items a count of `n` actually reaches. */
  function Clamp(n: int, hi: nat): (r: nat)
    ensures r <= hi
    ensures n <= 0 ==> r == 0
    ensures 0 <= n <= hi ==> r == n
    ensures n >= hi ==> r == hi
  {
    if n <= 0 then 0 else if n > hi then hi else n
  }

  /** The items a list holds after `skip` removals from its front. */
  function AfterSkip<T>(xs: seq<T>, skip: int): seq<T> {
    xs[Clamp(skip, |xs|)..]
  }

  /** The page of at most `top` items starting after the first `skip`. */
  function Page<T>(xs: seq<T>, skip: int, top: int): seq<T> {
    var rest := AfterSkip(xs, skip);
    rest[..Clamp(top, |rest|)]
  }

  /**
   * `pagination(objects, skip, top)`: the first `skip` items are removed from `objects` through its
   * iterator, then the next `top` items are copied, in order, into the returned list.  A null list
   * throws on `objects.iterator()`.
   */
  method Pagination<T>(objects: JList?<T>, skip: int, top: int) returns (r: Result<seq<T>, Exception>)
    modifies objects
    ensures objects == null ==> r == Err(NullPointerException)
    ensures objects != null ==> objects.elems == AfterSkip(old(objects.elems), skip)
    ensures objects != null ==> r == Ok(Page(old(objects.elems), skip, top))
  {
    if objects == null {
      return Err(NullPointerException);
    }
    ghost var original := objects.elems;
    var s := skip;
    while |objects.elems| > 0 && s > 0
      invariant |objects.elems| <= |original|
      invariant objects.elems == original[|original| - |objects.elems|..]
      invariant |original| - |objects.elems| == if skip <= 0 then 0 else skip - s
      invariant skip > 0 ==> 0 <= s <= skip
      invariant skip <= 0 ==> s == skip
      decreases |objects.elems|
    {
      objects.elems := objects.elems[1..];
      s := s - 1;
    }
    assert objects.elems == AfterSkip(original, skip);
    var paginated := [];
    var t := top;
    var i := 0;
    while i < |objects.elems| && t > 0
      invariant 0 <= i <= |objects.elems|
      invariant paginated == objects.elems[..i]
      invariant t == top - i
      invariant i <= Clamp(top, |objects.elems|)
    {
      paginated := paginated + [objects.elems[i]];
      i := i + 1;
      t := t - 1;
    }
    r := Ok(paginated);
  }

  /** `skip <= 0` removes nothing and `top <= 0` gives an empty page. */
  lemma NonPositiveCounts<T>(xs: seq<T>, skip: int, top: int)
    ensures skip <= 0 ==> AfterSkip(xs, skip) == xs
    ensures top <= 0 ==> Page(xs, skip, top) == []
  {
  }

  /** The page holds min(top, remaining) items, each one the item found `skip` places further on. */
  lemma PageContents<T>(xs: seq<T>, skip: int, top: int)
    ensures |Page(xs, skip, top)| == Clamp(top, |xs| - Clamp(skip, |xs|))
    ensures forall i :: 0 <= i < |Page(xs, skip, top)| ==> Page(xs, skip, top)[i] == xs[Clamp(skip, |xs|) + i]
  {
  }

  /** Two consecutive pages are the page of their combined size. */
  lemma {:induction false} ConsecutivePages<T>(xs: seq<T>, skip: nat, a: nat, b: nat)
    ensures Page(xs, skip, a) + Page(xs, skip + a, b) == Page(xs, skip, a + b)
  {
    var n := |xs|;
    var s := Clamp(skip, n);
    if skip + a >= n {
      assert Page(xs, skip + a, b) == [];
      assert Page(xs, skip, a) == xs[s..];
      assert Page(xs, skip, a + b) == xs[s..];
    } else {
      assert Page(xs, skip, a) == xs[skip..skip + a];
      assert Page(xs, skip + a, b) == xs[skip + a..skip + a + Clamp(b, n - skip - a)];
      assert Page(xs, skip, a + b) == xs[skip..skip + a + Clamp(b, n - skip - a)];
    }
  }
}
