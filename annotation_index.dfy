/**
 * `AnnotationIndex`: a map from annotation names to the names of the classes carrying them, with
 * in-place `merge` and `putNewSeekedClass`, and two helpers that read jar URLs.
 */
module AnnotationIndex {
  import opened Wrappers
  import opened JStrings

  type Index = map<JString, set<JString>>

  const EXT_JAR: JString := Lit(".jar")
  const FILE_PREFIX: JString := Lit("file:")

  /** `index.get(name)`, with an absent entry read as the empty set a fresh `HashSet` would be. */
  function ClassesOf(m: Index, name: JString): set<JString> {
    if name in m then m[name] else {}
  }

  /** The index after `putNewSeekedClass(annotation, cls)`. */
  function WithClass(m: Index, annotation: JString, cls: JString): Index {
    m[annotation := ClassesOf(m, annotation) + {cls}]
  }

  /** The index after `merge` of an index holding `o`: the two sets united under every key of `o`. */
  function Merged(m: Index, o: Index): Index {
    map k | k in m.Keys + o.Keys :: if k in o then ClassesOf(m, k) + o[k] else m[k]
  }

  /** `r` holds every key of `m` and `o`, with the union of their sets under the keys of `o`. */
  predicate IsMergeOf(r: Index, m: Index, o: Index) {
    r.Keys == m.Keys + o.Keys && forall k :: k in r ==> r[k] == if k !in o then m[k] else ClassesOf(m, k) + o[k]
  }

  /** `r` is `m` with the keys of `o` outside `remaining` merged in. */
  predicate PartlyMerged(r: Index, m: Index, o: Index, remaining: set<JString>) {
    remaining <= o.Keys && r.Keys == m.Keys + (o.Keys - remaining) &&
    forall k :: k in r ==> r[k] == if k in remaining || k !in o then m[k] else ClassesOf(m, k) + o[k]
  }

  lemma MergeStep(r: Index, m: Index, o: Index, remaining: set<JString>, name: JString)
    requires PartlyMerged(r, m, o, remaining) && name in remaining
    ensures PartlyMerged(r[name := ClassesOf(r, name) + o[name]], m, o, remaining - {name})
  {
  }

  lemma MergeDone(r: Index, m: Index, o: Index)
    requires PartlyMerged(r, m, o, {})
    ensures IsMergeOf(r, m, o)
  {
  }

  /** Only the merge is a merge. */
  lemma MergedExtensional(m: Index, o: Index, r: Index)
    requires IsMergeOf(r, m, o)
    ensures r == Merged(m, o)
  {
  }

  /** The loop of `merge`: each annotation of `o` is looked up, its set extended and put back. */
  method MergeEntries(m: Index, o: Index) returns (index: Index)
    ensures IsMergeOf(index, m, o)
  {
    index := m;
    var remaining := o.Keys;
    while remaining != {}
      invariant PartlyMerged(index, m, o, remaining)
      decreases |remaining|
    {
      var name :| name in remaining;
      MergeStep(index, m, o, remaining, name);
      var classNames := if name in index then index[name] else {};
      classNames := classNames + o[name];
      index := index[name := classNames];
      remaining := remaining - {name};
    }
    MergeDone(index, m, o);
  }

  class AnnotationIndex {
    /** The `index` field; `None` is a null map, which only `setIndex(null)` can produce. */
    var index: Option<Index>

    constructor ()
      ensures index == Some(map[])
    {
      index := Some(map[]);
    }

    /**
     * `merge(other)`: for each annotation of `other`, its classes are added to this index's set for
     * it.  A null argument or an argument with a null map changes nothing; a null map of this index
     * throws when there is something to merge.
     */
    method Merge(other: AnnotationIndex?) returns (error: Option<Exception>)
      requires other != this
      modifies this
      ensures other == null || other.index.None? ==> index == old(index) && error.None?
      ensures other != null && other.index.Some? && old(index).Some? ==>
        index == Some(Merged(old(index).value, other.index.value)) && error.None?
      ensures other != null && other.index.Some? && old(index).None? ==>
        index == old(index) && error == if other.index.value == map[] then None else Some(NullPointerException)
    {
      if other == null || other.index.None? {
        return None;
      }
      var o := other.index.value;
      if index.None? {
        if o != map[] {
          return Some(NullPointerException);
        }
        return None;
      }
      var merged := MergeEntries(index.value, o);
      MergedExtensional(index.value, o, merged);
      index := Some(merged);
      error := None;
    }

    /** `putNewSeekedClass(annotation, cls)`: `cls` is added to the set of `annotation`. */
    method PutNewSeekedClass(annotation: JString, cls: JString) returns (error: Option<Exception>)
      modifies this
      ensures old(index).None? ==> index == old(index) && error == Some(NullPointerException)
      ensures old(index).Some? ==> index == Some(WithClass(old(index).value, annotation, cls)) && error.None?
    {
      if index.None? {
        return Some(NullPointerException);
      }
      var classNames := if annotation in index.value then index.value[annotation] else {};
      if cls !in classNames {
        classNames := classNames + {cls};
        index := Some(index.value[annotation := classNames]);
      } else {
        assert classNames + {cls} == classNames;
        assert index.value == WithClass(index.value, annotation, cls);
      }
      error := None;
    }
  }

  /** After `putNewSeekedClass(a, c)`, `c` is recorded under `a`, other keys are unchanged and a repeat changes nothing. */
  lemma WithClassMeaning(m: Index, a: JString, c: JString)
    ensures c in ClassesOf(WithClass(m, a, c), a)
    ensures forall k :: k != a ==> ClassesOf(WithClass(m, a, c), k) == ClassesOf(m, k)
    ensures ClassesOf(WithClass(m, a, c), a) == ClassesOf(m, a) + {c}
    ensures WithClass(WithClass(m, a, c), a, c) == WithClass(m, a, c)
  {
  }

  /** `merge` is a union per key: every key of either index, with the union of both sets. */
  lemma MergedMeaning(m: Index, o: Index)
    ensures Merged(m, o).Keys == m.Keys + o.Keys
    ensures forall k :: ClassesOf(Merged(m, o), k) == ClassesOf(m, k) + ClassesOf(o, k)
  {
  }

  /** Merging the same index twice, or the empty index, changes nothing more. */
  lemma MergeIdempotent(m: Index, o: Index)
    ensures Merged(Merged(m, o), o) == Merged(m, o)
    ensures Merged(m, map[]) == m
  {
    var r := Merged(m, o);
    assert IsMergeOf(r, r, o) by {
      forall k | k in r && k in o
        ensures r[k] == ClassesOf(r, k) + o[k]
      {
        assert r[k] == ClassesOf(m, k) + o[k];
      }
    }
    MergedExtensional(r, o, r);
    assert IsMergeOf(m, m, map[]);
    MergedExtensional(m, map[], m);
  }

  /** `url.getPath()` with a leading `file:` dropped. */
  function StripFilePrefix(p: JString): JString {
    if StartsWith(p, FILE_PREFIX) then p[|FILE_PREFIX|..] else p
  }

  /**
   * `getJarName(url)` for the URL's path `p`: a leading `file:` is dropped and the text up to the
   * last `.jar` is kept with that `.jar`; without `.jar`, `substring(0, -1)` throws.
   */
  function GetJarName(p: JString): Result<JString, Exception> {
    var path := StripFilePrefix(p);
    var k := LastIndexOf(path, EXT_JAR);
    if k < 0 then Err(IndexOutOfBoundsException) else Ok(path[..k] + EXT_JAR)
  }

  /** `isJar(url)`: the first `.jar` of the path is past its first char. */
  predicate IsJar(p: JString) {
    IndexOf(p, EXT_JAR) > 0
  }

  /**
   * The jar name is a prefix of the stripped path that ends with `.jar`, and no `.jar` starts after
   * it; when the path holds no `.jar` the call throws.
   */
  lemma GetJarNameMeaning(p: JString)
    ensures GetJarName(p).Err? <==> forall i :: !OccursAt(StripFilePrefix(p), EXT_JAR, i)
    ensures GetJarName(p).Ok? ==> StartsWith(StripFilePrefix(p), GetJarName(p).value)
    ensures GetJarName(p).Ok? ==> EndsWith(GetJarName(p).value, EXT_JAR)
    ensures GetJarName(p).Ok? ==>
      forall i :: |GetJarName(p).value| - |EXT_JAR| < i ==> !OccursAt(StripFilePrefix(p), EXT_JAR, i)
  {
    var path := StripFilePrefix(p);
    var k := LastIndexOf(path, EXT_JAR);
    if k >= 0 {
      var r := path[..k] + EXT_JAR;
      assert path[k..k + |EXT_JAR|] == EXT_JAR;
      assert path[..k + |EXT_JAR|] == r;
      assert |r| - |EXT_JAR| == k;
    }
  }

  /**
   * `isJar` holds when `.jar` occurs past index 0 and not at index 0: a path that starts with
   * `.jar` is not a jar, whatever follows.
   */
  lemma IsJarMeaning(p: JString)
    ensures IsJar(p) <==> !OccursAt(p, EXT_JAR, 0) && exists i :: 0 < i && OccursAt(p, EXT_JAR, i)
  {
    var k := IndexOf(p, EXT_JAR);
    IndexOfFromIsFirst(p, EXT_JAR, 0);
    if !IsJar(p) && !OccursAt(p, EXT_JAR, 0) {
      assert k == -1;
    }
  }
}
