/**
 * `ClassUtils.getShortClassName`: the class name without its package, found by matching the whole
 * name against `((.*)\.)?([^.]+)` and taking the third group.
 */
module ClassUtils {
  import opened Wrappers
  import opened JStrings

  const DOT: JChar := '.' as JChar

  /** `(.*)` can match `p`. */
  predicate DotStarMatches(p: JString) {
    forall i :: 0 <= i < |p| ==> !IsLineTerminator(p[i])
  }

  /** `([^.]+)` can match `g`. */
  predicate ClassGroupMatches(g: JString) {
    |g| > 0 && DOT !in g
  }

  /**
   * The regex semantics: `name` matches `((.*)\.)?([^.]+)` with `g` as the third group, either
   * without the optional group or with some prefix `p` before the dot.
   */
  predicate IsMatchWithGroup(name: JString, g: JString) {
    ClassGroupMatches(g)
    && (name == g || exists k :: 0 <= k < |name| && DotStarMatches(name[..k]) && name[k] == DOT && name[k + 1..] == g)
  }

  /** The index of the last `.` in `s`, or -1. */
  function LastDot(s: JString): (r: int)
    ensures -1 <= r < |s|
    ensures r >= 0 ==> s[r] == DOT
    ensures forall i :: r < i < |s| ==> s[i] != DOT
  {
    if |s| == 0 then -1 else if s[|s| - 1] == DOT then |s| - 1 else LastDot(s[..|s| - 1])
  }

  /** The short name of a non-null name: group 3 of the match, or the whole name when it does not match. */
  function ShortName(name: JString): JString {
    var d := LastDot(name);
    if d == -1 then name
    else if d == |name| - 1 || !DotStarMatches(name[..d]) then name
    else name[d + 1..]
  }

  /**
   * `getShortClassName(name)`: a null name throws from `matcher`; otherwise the third group of the
   * match when the pattern matches (the match is unique), and the whole name when it does not.
   */
  function GetShortClassName(name: Option<JString>): (r: Result<JString, Exception>)
    ensures name.None? <==> r == Err(NullPointerException)
    ensures name.Some? ==> r.Ok? && EndsWith(name.value, r.value)
    ensures name.Some? ==> forall g :: IsMatchWithGroup(name.value, g) ==> r.value == g
    ensures name.Some? && (forall g :: !IsMatchWithGroup(name.value, g)) ==> r.value == name.value
  {
    match name
    case None => Err(NullPointerException)
    case Some(n) => ShortNameMeaning(n); Ok(ShortName(n))
  }

  /** The regex meaning of `ShortName`, gathered for `GetShortClassName`. */
  lemma ShortNameMeaning(name: JString)
    ensures EndsWith(name, ShortName(name))
    ensures forall g :: IsMatchWithGroup(name, g) ==> ShortName(name) == g
    ensures (forall g :: !IsMatchWithGroup(name, g)) ==> ShortName(name) == name
  {
    ShortNameIsSuffix(name);
    forall g | IsMatchWithGroup(name, g)
      ensures ShortName(name) == g
    {
      ShortNameIsRegexGroup(name, g);
    }
    if forall g :: !IsMatchWithGroup(name, g) {
      NoMatchGivesInput(name);
    }
  }

  /** The result is always a suffix of the input. */
  lemma ShortNameIsSuffix(name: JString)
    ensures EndsWith(name, ShortName(name))
  {
  }

  /** A name with no `.` (the empty name included) is returned whole. */
  lemma ShortNameWithoutDot(name: JString)
    requires DOT !in name
    ensures ShortName(name) == name
  {
    assert LastDot(name) == -1;
  }

  /** A name ending in `.` does not match the pattern, so it is returned unchanged. */
  lemma ShortNameTrailingDot(name: JString)
    requires |name| > 0 && name[|name| - 1] == DOT
    ensures ShortName(name) == name
  {
  }

  /**
   * The function agrees with the regex: when a match exists its third group is the result (the match
   * is unique), and when none exists the input comes back.
   */
  lemma {:induction false} ShortNameIsRegexGroup(name: JString, g: JString)
    requires IsMatchWithGroup(name, g)
    ensures ShortName(name) == g
  {
    var d := LastDot(name);
    if name == g {
      assert d == -1;
    } else {
      var k :| 0 <= k < |name| && DotStarMatches(name[..k]) && name[k] == DOT && name[k + 1..] == g;
      assert d == k;
    }
  }

  lemma NoMatchGivesInput(name: JString)
    requires forall g :: !IsMatchWithGroup(name, g)
    ensures ShortName(name) == name
  {
    var d := LastDot(name);
    if d != -1 && d != |name| - 1 && DotStarMatches(name[..d]) {
      var g := name[d + 1..];
      assert DOT !in g by {
        forall i | 0 <= i < |g| ensures g[i] != DOT { assert g[i] == name[d + 1 + i]; }
      }
      assert IsMatchWithGroup(name, g);
    }
  }

  /** When the name is shortened, the result is the text after the last `.` and holds no `.`. */
  lemma ShortNameAfterLastDot(name: JString)
    requires ShortName(name) != name
    ensures var r := ShortName(name);
      |r| > 0 && DOT !in r && name == name[..|name| - |r| - 1] + [DOT] + r
  {
    var d := LastDot(name);
    var r := name[d + 1..];
    assert DOT !in r by {
      forall i | 0 <= i < |r| ensures r[i] != DOT { assert r[i] == name[d + 1 + i]; }
    }
    assert name == name[..d] + [DOT] + r;
  }

  lemma Example()
    ensures ShortName(Lit("com.foo.FooClass")) == Lit("FooClass")
  {
    var n := Lit("com.foo.FooClass");
    var g := Lit("FooClass");
    assert n[7] == DOT;
    assert n[..7] == Lit("com.foo");
    assert n[8..] == g;
    assert DOT !in g;
    assert IsMatchWithGroup(n, g);
    ShortNameIsRegexGroup(n, g);
  }
}
