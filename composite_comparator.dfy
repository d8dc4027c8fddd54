/**
 * `CompositeComparator`: a fixed list of delegate comparators consulted in order; the first
 * non-zero result decides.
 */
module CompositeComparator {
  import opened Wrappers

  /** What `compare` returns for the delegates `ds`. */
  function FirstNonZero<T>(ds: seq<(T, T) -> int>, a: T, b: T): int {
    if |ds| == 0 then 0
    else if ds[0](a, b) != 0 then ds[0](a, b)
    else FirstNonZero(ds[1..], a, b)
  }

  class Composite<T> {
    /** The private `delegates` array: filled by a constructor and never changed afterwards. */
    const delegates: seq<(T, T) -> int>

    /** The varargs constructor: a null array gives no comparators, otherwise a copy. */
    constructor FromArray(ds: array?<(T, T) -> int>)
      ensures delegates == if ds == null then [] else old(ds[..])
    {
      if ds == null {
        delegates := [];
      } else {
        delegates := ds[..];
      }
    }

    /** The `Iterable` constructor: a null iterable gives no comparators, otherwise its items in order. */
    constructor FromIterable(ds: Option<seq<(T, T) -> int>>)
      ensures delegates == if ds.None? then [] else ds.value
    {
      if ds.None? {
        delegates := [];
      } else {
        var list: seq<(T, T) -> int> := [];
        var i := 0;
        while i < |ds.value|
          invariant 0 <= i <= |ds.value|
          invariant list == ds.value[..i]
        {
          list := list + [ds.value[i]];
          i := i + 1;
        }
        delegates := list;
      }
    }

    /**
     * `compare(a, b)`: the delegates are called in order until one returns non-zero; `calls` counts
     * the delegates invoked, so those after the deciding one are never called.
     */
    method Compare(a: T, b: T) returns (result: int, ghost calls: nat)
      ensures result == FirstNonZero(delegates, a, b)
      ensures calls <= |delegates|
      ensures forall i :: 0 <= i < calls - 1 ==> delegates[i](a, b) == 0
      ensures calls < |delegates| ==> calls > 0 && delegates[calls - 1](a, b) != 0
    {
      result := 0;
      calls := 0;
      var i := 0;
      while i < |delegates|
        invariant 0 <= i <= |delegates| && calls == i
        invariant forall k :: 0 <= k < i ==> delegates[k](a, b) == 0
        invariant result == 0
        invariant FirstNonZero(delegates, a, b) == FirstNonZero(delegates[i..], a, b)
      {
        result := delegates[i](a, b);
        calls := calls + 1;
        if result != 0 {
          break;
        }
        assert delegates[i..][1..] == delegates[i + 1..];
        i := i + 1;
      }
    }
  }

  /**
   * The result is 0 exactly when every delegate returns 0 (so always with no delegates); otherwise
   * it is the result of the first delegate that does not return 0.
   */
  lemma {:induction false} FirstNonZeroMeaning<T>(ds: seq<(T, T) -> int>, a: T, b: T)
    ensures FirstNonZero(ds, a, b) == 0 <==> forall i :: 0 <= i < |ds| ==> ds[i](a, b) == 0
    ensures FirstNonZero(ds, a, b) != 0 ==>
      exists k :: 0 <= k < |ds| && FirstNonZero(ds, a, b) == ds[k](a, b) && forall i :: 0 <= i < k ==> ds[i](a, b) == 0
  {
    if |ds| > 0 {
      FirstNonZeroMeaning(ds[1..], a, b);
      if ds[0](a, b) == 0 && FirstNonZero(ds, a, b) != 0 {
        var k :| 0 <= k < |ds[1..]| && FirstNonZero(ds[1..], a, b) == ds[1..][k](a, b) && forall i :: 0 <= i < k ==> ds[1..][i](a, b) == 0;
        assert forall i :: 0 <= i < k + 1 ==> ds[i](a, b) == 0 by {
          forall i | 0 <= i < k + 1 ensures ds[i](a, b) == 0 {
            if i > 0 { assert ds[i] == ds[1..][i - 1]; }
          }
        }
        assert FirstNonZero(ds, a, b) == ds[k + 1](a, b);
      }
      if ds[0](a, b) == 0 {
        assert (forall i :: 0 <= i < |ds| ==> ds[i](a, b) == 0) <==> (forall i :: 0 <= i < |ds[1..]| ==> ds[1..][i](a, b) == 0) by {
          if forall i :: 0 <= i < |ds[1..]| ==> ds[1..][i](a, b) == 0 {
            forall i | 0 <= i < |ds| ensures ds[i](a, b) == 0 {
              if i > 0 { assert ds[i] == ds[1..][i - 1]; }
            }
          }
        }
      }
    }
  }

  /** Adding delegates after a deciding one changes nothing. */
  lemma {:induction false} DecidedPrefix<T>(ds: seq<(T, T) -> int>, more: seq<(T, T) -> int>, a: T, b: T)
    requires FirstNonZero(ds, a, b) != 0
    ensures FirstNonZero(ds + more, a, b) == FirstNonZero(ds, a, b)
  {
    if ds[0](a, b) == 0 {
      assert (ds + more)[1..] == ds[1..] + more;
      DecidedPrefix(ds[1..], more, a, b);
    }
  }
}
