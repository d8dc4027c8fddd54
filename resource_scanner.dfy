/**
 * `ResourceScanner`: walks a directory tree (or the entries of a jar) with an Ant-style pattern of
 * directory names (`name`, `*`, `**`) and hands every matching file to a visitor.  The file system
 * is a tree of `Node`s, a jar is a list of entries, the visitor is reduced to its `isDone` test and
 * its `convertObject` conversion over the results visited so far, and `String.matches` is the
 * function `regexMatches(regex, text)`.
 */
module ResourceScanner {
  import opened Wrappers
  import opened JStrings
  import StringUtils

  /** A file or a directory with its children, in `listFiles` order. */
  datatype Node = File(name: JString) | Dir(name: JString, children: seq<Node>)

  /** `ResourceObj`: the file name and its path relative to the root. */
  datatype Resource = Resource(name: JString, path: JString)

  datatype JarEntry = JarEntry(entryName: JString, isDirectory: bool)

  /** The root location: a directory or a jar; a resource file's parent directory is not modelled. */
  datatype Root = DirRoot(children: seq<Node>) | JarRoot(entries: seq<JarEntry>)

  const SLASH: JChar := '/' as JChar
  const STAR: JString := ['*' as JChar]
  const DOUBLE_STAR: JString := ['*' as JChar, '*' as JChar]
  const ANY_NAME: JString := ['.' as JChar, '+' as JChar]
  const BAR: JChar := '|' as JChar

  // ---------------------------------------------------------------- initFilePattern

  /** How `initFilePattern` writes one char of an extension: `.` as `\.`, `*` as `.*`. */
  function ExtChar(c: JChar): (r: JString)
    ensures |r| > 0
  {
    if c == '.' as JChar then ['\\' as JChar, '.' as JChar]
    else if c == '*' as JChar then ['.' as JChar, '*' as JChar]
    else [c]
  }

  /**
   * `ext.replaceAll("\\.", "\\\\.").replaceAll("\\*", ".*")`: the first rewrite adds no `*`, so the
   * two amount to one rewrite per char.
   */
  function ExtPattern(ext: JString): (r: JString)
    ensures |r| >= |ext|
  {
    if |ext| == 0 then [] else ExtChar(ext[0]) + ExtPattern(ext[1..])
  }

  /** Reads a pattern of `ExtPattern` back: `\.` is `.`, `.*` is `*`, any other char is itself. */
  function ExtOfPattern(p: JString): JString
    decreases |p|
  {
    if |p| == 0 then []
    else if |p| >= 2 && p[0] == '\\' as JChar && p[1] == '.' as JChar then ['.' as JChar] + ExtOfPattern(p[2..])
    else if |p| >= 2 && p[0] == '.' as JChar && p[1] == '*' as JChar then ['*' as JChar] + ExtOfPattern(p[2..])
    else [p[0]] + ExtOfPattern(p[1..])
  }

  /** An extension without a backslash is read back from its pattern. */
  lemma {:induction false} ExtPatternRoundTrip(ext: JString)
    requires '\\' as JChar !in ext
    ensures ExtOfPattern(ExtPattern(ext)) == ext
  {
    if |ext| > 0 {
      var p := ExtPattern(ext);
      var rest := ExtPattern(ext[1..]);
      assert p == ExtChar(ext[0]) + rest;
      ExtPatternRoundTrip(ext[1..]);
      if ext[0] == '.' as JChar || ext[0] == '*' as JChar {
        assert p[2..] == rest;
      } else {
        assert p[1..] == rest;
      }
      assert ext == [ext[0]] + ext[1..];
    }
  }

  /** The pattern holds only the extension's own chars, `\`, `.` and `*`. */
  lemma {:induction false} ExtPatternChars(ext: JString, c: JChar)
    requires c in ExtPattern(ext)
    ensures c in ext || c == '\\' as JChar || c == '.' as JChar || c == '*' as JChar
  {
    if |ext| > 0 {
      if c !in ExtChar(ext[0]) {
        ExtPatternChars(ext[1..], c);
      }
    }
  }

  function ExtPatterns(exts: seq<JString>): (r: seq<JString>)
    ensures |r| == |exts| && forall i :: 0 <= i < |r| ==> r[i] == ExtPattern(exts[i])
  {
    seq(|exts|, i requires 0 <= i < |exts| => ExtPattern(exts[i]))
  }

  /**
   * What `initFilePattern` returns for the visitor's extensions: `.+` for none or a first `*`,
   * otherwise the extension patterns joined by `|`; an empty array fails in `exts[0]`.
   */
  function FilePattern(exts: Option<seq<JString>>): Result<JString, Exception> {
    if exts.None? then Ok(ANY_NAME)
    else if |exts.value| == 0 then Err(IndexOutOfBoundsException)
    else if exts.value[0] == STAR then Ok(ANY_NAME)
    else Ok(JoinWith(ExtPatterns(exts.value), [BAR]))
  }

  /** `initFilePattern`: the loop appends each pattern and a `|` before every later one. */
  method InitFilePattern(exts: Option<seq<JString>>) returns (r: Result<JString, Exception>)
    ensures r == FilePattern(exts)
  {
    if exts.None? {
      return Ok(ANY_NAME);
    }
    if |exts.value| == 0 {
      return Err(IndexOutOfBoundsException);
    }
    var e := exts.value;
    if e[0] == STAR {
      return Ok(ANY_NAME);
    }
    var result := JoinedPatterns(e);
    r := Ok(result);
  }

  /** The loop of `initFilePattern`: each extension's pattern, and a `|` when another one follows. */
  method JoinedPatterns(e: seq<JString>) returns (result: JString)
    requires |e| > 0
    ensures result == JoinWith(ExtPatterns(e), [BAR])
  {
    ghost var pats := ExtPatterns(e);
    result := [];
    var i := 0;
    while i < |e|
      invariant 0 <= i <= |e|
      invariant i == 0 ==> result == []
      invariant 0 < i < |e| ==> result == JoinWith(pats[..i], [BAR]) + [BAR]
      invariant i == |e| ==> result == JoinWith(pats[..i], [BAR])
    {
      var nPatt := ExtPattern(e[i]);
      JoinWithPrefix(pats, [BAR], i);
      result := result + nPatt;
      if i + 1 < |e| {
        result := result + [BAR];
      }
      i := i + 1;
    }
    assert pats[..i] == pats;
  }

  /** Joining one more part: the first part alone, or the join so far, the separator and the part. */
  lemma JoinWithPrefix(parts: seq<JString>, sep: JString, i: nat)
    requires i < |parts|
    ensures i == 0 ==> JoinWith(parts[..i + 1], sep) == [] + parts[i]
    ensures i > 0 ==> JoinWith(parts[..i + 1], sep) == JoinWith(parts[..i], sep) + sep + parts[i]
  {
    assert parts[..i + 1][..i] == parts[..i];
    if i == 0 {
      assert parts[..1] == [parts[0]] && [] + parts[0] == parts[0];
    }
  }

  /** For extensions without `|`, splitting the file pattern at `|` gives one pattern per extension. */
  lemma FilePatternAlternatives(exts: seq<JString>)
    requires |exts| > 0 && exts[0] != STAR
    requires forall i :: 0 <= i < |exts| ==> BAR !in exts[i]
    ensures Fields(FilePattern(Some(exts)).value, BAR) == ExtPatterns(exts)
  {
    var pats := ExtPatterns(exts);
    forall i | 0 <= i < |pats| ensures BAR !in pats[i] {
      if BAR in pats[i] {
        ExtPatternChars(exts[i], BAR);
      }
    }
    FieldsOfJoin(pats, BAR);
  }

  // ---------------------------------------------------------------- the jar pattern

  const HASH: JString := ['#' as JChar]
  const SLASH_HASH: JString := ['/' as JChar, '#' as JChar]
  const SLASH_OPT_HASH: JString := ['/' as JChar, '?' as JChar, '#' as JChar]
  const ONE_OR_MORE: JString := ['.' as JChar, '+' as JChar]
  const ZERO_OR_MORE: JString := ['.' as JChar, '*' as JChar]
  const SLASH_ANY: JString := ['/' as JChar, '.' as JChar, '*' as JChar]

  /**
   * The regex `findJarResources` matches entry names against: the patterns joined by `/`, then
   * `**` to `#`, `/#` to `/?#`, `*` to `.+`, `#` to `.*`, and `/.*` appended unless already there.
   */
  function JarPattern(paths: seq<JString>): JString {
    var p0 := JoinWith(paths, [SLASH]);
    var p1 := StringUtils.ReplaceAll(p0, DOUBLE_STAR, HASH);
    var p2 := StringUtils.ReplaceAll(p1, SLASH_HASH, SLASH_OPT_HASH);
    var p3 := StringUtils.ReplaceAll(p2, STAR, ONE_OR_MORE);
    var p4 := StringUtils.ReplaceAll(p3, HASH, ZERO_OR_MORE);
    if EndsWith(p4, SLASH_ANY) then p4 else p4 + SLASH_ANY
  }

  /** Directory names without `*` or `#` are matched literally, with anything below them. */
  lemma JarPatternLiteral(paths: seq<JString>)
    requires var p0 := JoinWith(paths, [SLASH]); '*' as JChar !in p0 && '#' as JChar !in p0
    ensures JarPattern(paths) == JoinWith(paths, [SLASH]) + SLASH_ANY
  {
    var p0 := JoinWith(paths, [SLASH]);
    StringUtils.NoCharNoOccurrence(p0, DOUBLE_STAR, '*' as JChar);
    StringUtils.ReplaceAllAbsent(p0, DOUBLE_STAR, HASH);
    StringUtils.NoCharNoOccurrence(p0, SLASH_HASH, '#' as JChar);
    StringUtils.ReplaceAllAbsent(p0, SLASH_HASH, SLASH_OPT_HASH);
    StringUtils.NoCharNoOccurrence(p0, STAR, '*' as JChar);
    StringUtils.ReplaceAllAbsent(p0, STAR, ONE_OR_MORE);
    StringUtils.NoCharNoOccurrence(p0, HASH, '#' as JChar);
    StringUtils.ReplaceAllAbsent(p0, HASH, ZERO_OR_MORE);
    assert !EndsWith(p0, SLASH_ANY) by {
      if |p0| >= 3 {
        assert p0[|p0| - 3..][2] == p0[|p0| - 1];
      }
    }
  }

  // ---------------------------------------------------------------- the directory walk

  /** The visitor and the scanner state a walk depends on. */
  datatype Env<!R> = Env(
    patterns: seq<JString>,
    filePat: JString,
    isDone: seq<R> -> bool,
    convertObject: Resource -> Option<R>,
    regexMatches: (JString, JString) -> bool)

  /** `visitItem`: the converted resource is visited unless the conversion gives null. */
  function Visited<R>(convertObject: Resource -> Option<R>, visited: seq<R>, res: Resource): (r: seq<R>)
    ensures convertObject(res).None? ==> r == visited
    ensures convertObject(res).Some? ==> r == visited + [convertObject(res).value]
  {
    match convertObject(res)
    case None => visited
    case Some(x) => visited + [x]
  }

  function ChildPath(path: JString, name: JString): JString {
    path + [SLASH] + name
  }

  /**
   * The results after `findDirResources(base, patterns, index, path)` has examined the children of
   * `base` from `i` on, starting from `visited`; a directory met with every pattern consumed makes
   * `patterns[index]` fail.
   */
  function Walk<R>(env: Env<R>, base: Node, i: nat, index: nat, path: JString, visited: seq<R>): Result<seq<R>, Exception>
    requires base.Dir? && i <= |base.children| && index <= |env.patterns|
    decreases base, |base.children| - i
  {
    if i == |base.children| || env.isDone(visited) then Ok(visited)
    else
      var child := base.children[i];
      var childPath := ChildPath(path, child.name);
      var pats := env.patterns;
      if child.File? && index == |pats| then
        var next := if env.regexMatches(env.filePat, child.name) then Visited(env.convertObject, visited, Resource(child.name, childPath)) else visited;
        Walk(env, base, i + 1, index, path, next)
      else if child.Dir? && index == |pats| then Err(IndexOutOfBoundsException)
      else if child.Dir? && (pats[index] == child.name || pats[index] == STAR) then
        match Walk(env, child, 0, index + 1, childPath, visited)
        case Err(e) => Err(e)
        case Ok(next) => Walk(env, base, i + 1, index, path, next)
      else if pats[index] == DOUBLE_STAR then
        if child.File? && index + 1 == |pats| && env.regexMatches(env.filePat, child.name) then
          Walk(env, base, i + 1, index, path, Visited(env.convertObject, visited, Resource(child.name, childPath)))
        else if child.Dir? then
          var deeper := if index + 1 < |pats| && pats[index + 1] == child.name then index + 2 else index;
          match Walk(env, child, 0, deeper, childPath, visited)
          case Err(e) => Err(e)
          case Ok(next) => Walk(env, base, i + 1, index, path, next)
        else Walk(env, base, i + 1, index, path, visited)
      else Walk(env, base, i + 1, index, path, visited)
  }

  /** Once the visitor is done, the walk changes nothing. */
  lemma WalkWhenDone<R>(env: Env<R>, base: Node, i: nat, index: nat, path: JString, visited: seq<R>)
    requires base.Dir? && i <= |base.children| && index <= |env.patterns|
    requires env.isDone(visited)
    ensures Walk(env, base, i, index, path, visited) == Ok(visited)
  {
  }

  /** With every pattern consumed, a subdirectory makes the walk fail, unless the visitor is already done. */
  lemma WalkDirectoryPastPatterns<R>(env: Env<R>, name: JString, sub: seq<Node>, path: JString, visited: seq<R>)
    requires !env.isDone(visited)
    ensures Walk(env, Dir(name, [Dir([], sub)]), 0, |env.patterns|, path, visited) == Err(IndexOutOfBoundsException)
  {
  }

  /** A resource the walk may hand to the visitor: its name matches the file pattern and its path ends with `/` and the name. */
  predicate Visitable<R>(env: Env<R>, res: Resource) {
    env.regexMatches(env.filePat, res.name) && EndsWith(res.path, [SLASH] + res.name)
  }

  /** Every result from position `from` on is the conversion of a visitable resource. */
  ghost predicate FromVisitable<R>(env: Env<R>, acc: seq<R>, from: nat) {
    forall k :: from <= k < |acc| ==> IsConversion(env, acc[k])
  }

  /** `x` is what the visitor's conversion makes of some visitable resource. */
  ghost predicate IsConversion<R>(env: Env<R>, x: R) {
    exists res: Resource :: Visitable(env, res) && env.convertObject(res) == Some(x)
  }

  lemma VisitedStep<R>(env: Env<R>, visited: seq<R>, res: Resource)
    requires Visitable(env, res)
    ensures visited <= Visited(env.convertObject, visited, res) && FromVisitable(env, Visited(env.convertObject, visited, res), |visited|)
  {
    var r := Visited(env.convertObject, visited, res);
    forall k | |visited| <= k < |r| ensures IsConversion(env, r[k]) {
      assert env.convertObject(res) == Some(r[k]);
    }
  }

  lemma FromVisitableTrans<R>(env: Env<R>, a: seq<R>, b: seq<R>, c: seq<R>)
    requires a <= b && b <= c && FromVisitable(env, b, |a|) && FromVisitable(env, c, |b|)
    ensures FromVisitable(env, c, |a|)
  {
    forall k | |a| <= k < |b| ensures IsConversion(env, c[k]) {
      assert c[k] == b[k];
    }
  }

  /** A walk result that, if it succeeded, extends `visited` with conversions of visitable resources only. */
  ghost predicate Grows<R>(env: Env<R>, visited: seq<R>, w: Result<seq<R>, Exception>) {
    w.Ok? ==> visited <= w.value && FromVisitable(env, w.value, |visited|)
  }

  lemma GrowsTrans<R>(env: Env<R>, visited: seq<R>, next: seq<R>, w: Result<seq<R>, Exception>)
    requires visited <= next && FromVisitable(env, next, |visited|) && Grows(env, next, w)
    ensures Grows(env, visited, w)
  {
    if w.Ok? {
      FromVisitableTrans(env, visited, next, w.value);
    }
  }

  /**
   * The walk only adds results, each the conversion of a file whose name matches the file pattern
   * and whose path is its directory's path, `/` and its name.
   */
  lemma {:induction false} WalkVisits<R>(env: Env<R>, base: Node, i: nat, index: nat, path: JString, visited: seq<R>)
    requires base.Dir? && i <= |base.children| && index <= |env.patterns|
    ensures Grows(env, visited, Walk(env, base, i, index, path, visited))
    decreases base, |base.children| - i, 1
  {
    if i == |base.children| || env.isDone(visited) {
    } else {
      var child := base.children[i];
      var pats := env.patterns;
      if child.File? && index == |pats| {
        WalkVisitsFile(env, base, i, index, path, visited);
      } else if child.Dir? && index == |pats| {
      } else if child.Dir? && (pats[index] == child.name || pats[index] == STAR) {
        WalkVisitsDir(env, base, i, index, path, visited, index + 1);
      } else if pats[index] == DOUBLE_STAR {
        if child.File? && index + 1 == |pats| && env.regexMatches(env.filePat, child.name) {
          WalkVisitsFile(env, base, i, index, path, visited);
        } else if child.Dir? {
          var deeper := if index + 1 < |pats| && pats[index + 1] == child.name then index + 2 else index;
          WalkVisitsDir(env, base, i, index, path, visited, deeper);
        } else {
          WalkVisitsSkip(env, base, i, index, path, visited);
        }
      } else {
        WalkVisitsSkip(env, base, i, index, path, visited);
      }
    }
  }

  /** The resource a child of `base` stands for is visitable when its name matches. */
  lemma ChildVisitable<R>(env: Env<R>, path: JString, name: JString)
    requires env.regexMatches(env.filePat, name)
    ensures Visitable(env, Resource(name, ChildPath(path, name)))
  {
    var childPath := ChildPath(path, name);
    assert childPath[|childPath| - |[SLASH] + name|..] == [SLASH] + name;
  }

  /** A file child, visited if its name matches the file pattern: the walk goes on at `i + 1`. */
  lemma {:induction false} WalkVisitsFile<R>(env: Env<R>, base: Node, i: nat, index: nat, path: JString, visited: seq<R>)
    requires base.Dir? && i < |base.children| && index <= |env.patterns| && !env.isDone(visited)
    requires base.children[i].File?
    requires index == |env.patterns| ||
      (env.patterns[index] == DOUBLE_STAR && index + 1 == |env.patterns| && env.regexMatches(env.filePat, base.children[i].name))
    ensures Grows(env, visited, Walk(env, base, i, index, path, visited))
    decreases base, |base.children| - i, 0
  {
    var child := base.children[i];
    var res := Resource(child.name, ChildPath(path, child.name));
    var next := if env.regexMatches(env.filePat, child.name) then Visited(env.convertObject, visited, res) else visited;
    assert Walk(env, base, i, index, path, visited) == Walk(env, base, i + 1, index, path, next);
    if env.regexMatches(env.filePat, child.name) {
      ChildVisitable(env, path, child.name);
      VisitedStep(env, visited, res);
    }
    WalkVisits(env, base, i + 1, index, path, next);
    GrowsTrans(env, visited, next, Walk(env, base, i + 1, index, path, next));
  }

  /** A directory child walked with patterns from `deeper` on, then the rest of `base`. */
  lemma {:induction false} WalkVisitsDir<R>(env: Env<R>, base: Node, i: nat, index: nat, path: JString, visited: seq<R>, deeper: nat)
    requires base.Dir? && i < |base.children| && index < |env.patterns| && !env.isDone(visited)
    requires base.children[i].Dir? && deeper <= |env.patterns|
    requires (deeper == index + 1 && (env.patterns[index] == base.children[i].name || env.patterns[index] == STAR)) ||
      (env.patterns[index] == DOUBLE_STAR && env.patterns[index] != base.children[i].name && env.patterns[index] != STAR &&
       deeper == if index + 1 < |env.patterns| && env.patterns[index + 1] == base.children[i].name then index + 2 else index)
    ensures Grows(env, visited, Walk(env, base, i, index, path, visited))
    decreases base, |base.children| - i, 0
  {
    var child := base.children[i];
    var childPath := ChildPath(path, child.name);
    var inner := Walk(env, child, 0, deeper, childPath, visited);
    assert Walk(env, base, i, index, path, visited) ==
      match inner
      case Err(e) => Err(e)
      case Ok(next) => Walk(env, base, i + 1, index, path, next);
    WalkVisits(env, child, 0, deeper, childPath, visited);
    if inner.Ok? {
      WalkVisits(env, base, i + 1, index, path, inner.value);
      GrowsTrans(env, visited, inner.value, Walk(env, base, i + 1, index, path, inner.value));
    }
  }

  /** A child the patterns pass over: the walk goes on at `i + 1` with the same results. */
  lemma {:induction false} WalkVisitsSkip<R>(env: Env<R>, base: Node, i: nat, index: nat, path: JString, visited: seq<R>)
    requires base.Dir? && i < |base.children| && index <= |env.patterns| && !env.isDone(visited)
    requires Walk(env, base, i, index, path, visited) == Walk(env, base, i + 1, index, path, visited)
    ensures Grows(env, visited, Walk(env, base, i, index, path, visited))
    decreases base, |base.children| - i, 0
  {
    WalkVisits(env, base, i + 1, index, path, visited);
  }

  /** A file child at `j` that the walk must hand to the visitor: every pattern segment is used up, or only a final `**` is left, and its name matches. */
  predicate FileToVisit<R>(env: Env<R>, base: Node, index: nat, j: nat)
    requires base.Dir? && j < |base.children|
  {
    var child := base.children[j];
    child.File? && env.regexMatches(env.filePat, child.name) &&
    (index == |env.patterns| || (index + 1 == |env.patterns| && env.patterns[index] == DOUBLE_STAR))
  }

  /**
   * The converse of `WalkVisits`: for a visitor that is never done, a walk that succeeds visits
   * every file child from `i` on that is to be visited, whenever the conversion gives a value.
   */
  lemma {:induction false} WalkFinds<R>(env: Env<R>, base: Node, i: nat, j: nat, index: nat, path: JString, visited: seq<R>)
    requires base.Dir? && i <= j < |base.children| && index <= |env.patterns|
    requires forall v :: !env.isDone(v)
    requires FileToVisit(env, base, index, j)
    requires env.convertObject(Resource(base.children[j].name, ChildPath(path, base.children[j].name))).Some?
    requires Walk(env, base, i, index, path, visited).Ok?
    ensures env.convertObject(Resource(base.children[j].name, ChildPath(path, base.children[j].name))).value
      in Walk(env, base, i, index, path, visited).value
    decreases |base.children| - i
  {
    var child := base.children[i];
    var childPath := ChildPath(path, child.name);
    var pats := env.patterns;
    assert !env.isDone(visited);
    if i == j {
      var res := Resource(child.name, childPath);
      var next := Visited(env.convertObject, visited, res);
      assert Walk(env, base, i, index, path, visited) == Walk(env, base, i + 1, index, path, next);
      WalkVisits(env, base, i + 1, index, path, next);
      assert next[|visited|] == env.convertObject(res).value;
    } else if index == |pats| {
      if child.Dir? {
        assert false;
      }
      var next := if env.regexMatches(env.filePat, child.name) then Visited(env.convertObject, visited, Resource(child.name, childPath)) else visited;
      assert Walk(env, base, i, index, path, visited) == Walk(env, base, i + 1, index, path, next);
      WalkFinds(env, base, i + 1, j, index, path, next);
    } else if child.Dir? && (pats[index] == child.name || pats[index] == STAR) {
      WalkFindsAfterDir(env, base, i, j, index, path, visited, index + 1);
    } else if pats[index] == DOUBLE_STAR && child.Dir? {
      // only a final `**` is left, so there is no directory name to look ahead to
      WalkFindsAfterDir(env, base, i, j, index, path, visited, index);
    } else {
      var next := if pats[index] == DOUBLE_STAR && child.File? && index + 1 == |pats| && env.regexMatches(env.filePat, child.name)
        then Visited(env.convertObject, visited, Resource(child.name, childPath)) else visited;
      assert Walk(env, base, i, index, path, visited) == Walk(env, base, i + 1, index, path, next);
      WalkFinds(env, base, i + 1, j, index, path, next);
    }
  }

  /** `WalkFinds` past a directory child at `i` that the walk enters with patterns from `deeper` on. */
  lemma {:induction false} WalkFindsAfterDir<R>(env: Env<R>, base: Node, i: nat, j: nat, index: nat, path: JString, visited: seq<R>, deeper: nat)
    requires base.Dir? && i < j < |base.children| && index < |env.patterns| && deeper <= |env.patterns|
    requires forall v :: !env.isDone(v)
    requires FileToVisit(env, base, index, j)
    requires env.convertObject(Resource(base.children[j].name, ChildPath(path, base.children[j].name))).Some?
    requires base.children[i].Dir?
    requires (deeper == index + 1 && (env.patterns[index] == base.children[i].name || env.patterns[index] == STAR)) ||
      (env.patterns[index] == DOUBLE_STAR && env.patterns[index] != base.children[i].name && env.patterns[index] != STAR &&
       deeper == index)
    requires Walk(env, base, i, index, path, visited).Ok?
    ensures env.convertObject(Resource(base.children[j].name, ChildPath(path, base.children[j].name))).value
      in Walk(env, base, i, index, path, visited).value
    decreases |base.children| - i, 0
  {
    var child := base.children[i];
    var childPath := ChildPath(path, child.name);
    var inner := Walk(env, child, 0, deeper, childPath, visited);
    assert !env.isDone(visited);
    assert Walk(env, base, i, index, path, visited) ==
      match inner
      case Err(e) => Err(e)
      case Ok(next) => Walk(env, base, i + 1, index, path, next);
    WalkFinds(env, base, i + 1, j, index, path, inner.value);
  }

  // ---------------------------------------------------------------- the jar walk

  /** `ResourceObj(zip, entry, path)`: the name is the text after the last `/`. */
  function EntryResource(entryName: JString): (r: Resource)
    ensures r.path == entryName && EndsWith(entryName, r.name)
  {
    var i := LastIndexOf(entryName, [SLASH]);
    var name := if i > -1 then entryName[i + 1..] else entryName;
    Resource(name, entryName)
  }

  /** A char that is not in a text occurs nowhere in it as a one-char text. */
  lemma CharNowhere(s: JString, c: JChar)
    requires c !in s
    ensures forall j :: !OccursAt(s, [c], j)
  {
    forall j
      ensures !OccursAt(s, [c], j)
    {
      if 0 <= j < |s| {
        assert s[j..j + 1][0] == s[j];
      }
    }
  }

  /** The resource name of a jar entry is its last path segment: it holds no `/`. */
  lemma EntryResourceName(entryName: JString)
    ensures SLASH !in EntryResource(entryName).name
    ensures SLASH !in entryName ==> EntryResource(entryName).name == entryName
  {
    var i := LastIndexOf(entryName, [SLASH]);
    var name := EntryResource(entryName).name;
    var from := if i > -1 then i + 1 else 0;
    if SLASH !in entryName {
      CharNowhere(entryName, SLASH);
      assert i == -1;
    }
    assert name == entryName[from..];
    if SLASH in name {
      var k :| 0 <= k < |name| && name[k] == SLASH;
      var j := from + k;
      assert entryName[j..j + 1] == [SLASH];
      assert OccursAt(entryName, [SLASH], j);
      assert false;
    }
  }

  /** The results after the jar loop has examined `entries`; the loop never asks `isDone`. */
  function JarVisited<R>(env: Env<R>, entries: seq<JarEntry>, nPat: JString, visited: seq<R>): seq<R> {
    if |entries| == 0 then visited
    else
      var acc := JarVisited(env, entries[..|entries| - 1], nPat, visited);
      var e := entries[|entries| - 1];
      var res := EntryResource(e.entryName);
      if !e.isDirectory && env.regexMatches(nPat, e.entryName) && env.regexMatches(env.filePat, res.name) then
        Visited(env.convertObject, acc, res)
      else acc
  }

  /** One more entry examined: what the jar loop does with the entry at `i`. */
  lemma JarVisitedSnoc<R>(env: Env<R>, entries: seq<JarEntry>, i: nat, nPat: JString, visited: seq<R>)
    requires i < |entries|
    ensures var e := entries[i];
      var before := JarVisited(env, entries[..i], nPat, visited);
      var res := EntryResource(e.entryName);
      JarVisited(env, entries[..i + 1], nPat, visited) ==
        if !e.isDirectory && env.regexMatches(nPat, e.entryName) && env.regexMatches(env.filePat, res.name)
        then Visited(env.convertObject, before, res) else before
  {
    assert entries[..i + 1][..i] == entries[..i];
  }

  // ---------------------------------------------------------------- the scanner object

  class Scanner<!R> {
    const resourcePattern: JString
    const location: Option<Root>
    /** `visitor.getSupportedFileExts()`. */
    const supportedFileExts: Option<seq<JString>>
    const isDone: seq<R> -> bool
    const convertObject: Resource -> Option<R>
    const regexMatches: (JString, JString) -> bool
    var filePat: JString
    /** The results the visitor has been given, in order. */
    var visited: seq<R>

    constructor (location: Option<Root>, resourcePattern: JString, supportedFileExts: Option<seq<JString>>,
                 isDone: seq<R> -> bool, convertObject: Resource -> Option<R>, regexMatches: (JString, JString) -> bool)
      ensures this.location == location && this.resourcePattern == resourcePattern
      ensures this.supportedFileExts == supportedFileExts && this.isDone == isDone
      ensures this.convertObject == convertObject && this.regexMatches == regexMatches
      ensures visited == [] && filePat == []
    {
      this.location := location;
      this.resourcePattern := resourcePattern;
      this.supportedFileExts := supportedFileExts;
      this.isDone := isDone;
      this.convertObject := convertObject;
      this.regexMatches := regexMatches;
      filePat := [];
      visited := [];
    }

    function EnvFor(patterns: seq<JString>): Env<R>
      reads this
    {
      Env(patterns, filePat, isDone, convertObject, regexMatches)
    }

    /** `visitItem(resource)`. */
    method VisitItem(res: Resource)
      modifies this
      ensures visited == Visited(convertObject, old(visited), res) && filePat == old(filePat)
    {
      var result := convertObject(res);
      if result.Some? {
        visited := visited + [result.value];
      }
    }

    /** `findDirResources(base, patterns, index, path)`. */
    method FindDirResources(base: Node, patterns: seq<JString>, index: nat, path: JString) returns (error: Option<Exception>)
      requires base.Dir? && index <= |patterns|
      modifies this
      ensures filePat == old(filePat)
      ensures var w := Walk(EnvFor(patterns), base, 0, index, path, old(visited));
        if w.Ok? then error.None? && visited == w.value else error == Some(w.error)
      decreases base, 1
    {
      var env := EnvFor(patterns);
      ghost var start := visited;
      var i := 0;
      while i < |base.children|
        invariant 0 <= i <= |base.children| && filePat == old(filePat) && env == EnvFor(patterns)
        invariant Walk(env, base, 0, index, path, start) == Walk(env, base, i, index, path, visited)
        decreases |base.children| - i
      {
        if isDone(visited) {
          break;
        }
        var e := FindDirChild(base, patterns, index, path, i);
        if e.Some? {
          return e;
        }
        i := i + 1;
      }
      error := None;
    }

    /** One round of the loop of `findDirResources`: the child at `i`, with the visitor not yet done. */
    method FindDirChild(base: Node, patterns: seq<JString>, index: nat, path: JString, i: nat) returns (error: Option<Exception>)
      requires base.Dir? && index <= |patterns| && i < |base.children| && !isDone(visited)
      modifies this
      ensures filePat == old(filePat)
      ensures var w := Walk(EnvFor(patterns), base, i, index, path, old(visited));
        if error.Some? then w == Err(error.value) else w == Walk(EnvFor(patterns), base, i + 1, index, path, visited)
      decreases base, 0
    {
      error := None;
      var child := base.children[i];
      var childPath := path + [SLASH] + child.name;
      if child.File? && index == |patterns| {
        if regexMatches(filePat, child.name) {
          VisitItem(Resource(child.name, childPath));
        }
      } else if child.Dir? && index == |patterns| {
        return Some(IndexOutOfBoundsException);
      } else if child.Dir? && (patterns[index] == child.name || patterns[index] == STAR) {
        error := FindDirResources(child, patterns, index + 1, childPath);
      } else if patterns[index] == DOUBLE_STAR {
        if child.File? && index + 1 == |patterns| && regexMatches(filePat, child.name) {
          VisitItem(Resource(child.name, childPath));
        } else if child.Dir? {
          if index + 1 < |patterns| && patterns[index + 1] == child.name {
            error := FindDirResources(child, patterns, index + 2, childPath);
          } else {
            error := FindDirResources(child, patterns, index, childPath);
          }
        }
      }
    }

    /** `findJarResources(base, paths)`: the entries are examined in order, all of them. */
    method FindJarResources(entries: seq<JarEntry>, paths: seq<JString>)
      modifies this
      ensures filePat == old(filePat)
      ensures visited == JarVisited(EnvFor([]), entries, JarPattern(paths), old(visited))
    {
      var nPat := JarPattern(paths);
      ghost var env := EnvFor([]);
      var i := 0;
      while i < |entries|
        invariant 0 <= i <= |entries| && filePat == old(filePat) && env == EnvFor([])
        invariant visited == JarVisited(env, entries[..i], nPat, old(visited))
      {
        var child := entries[i];
        JarVisitedSnoc(env, entries, i, nPat, old(visited));
        ghost var before := visited;
        var resource := EntryResource(child.entryName);
        if !child.isDirectory && regexMatches(nPat, child.entryName) {
          if regexMatches(filePat, resource.name) {
            VisitItem(resource);
          }
        }
        assert visited == if !child.isDirectory && env.regexMatches(nPat, child.entryName) && env.regexMatches(env.filePat, resource.name)
          then Visited(env.convertObject, before, resource) else before;
        i := i + 1;
      }
      assert entries[..i] == entries;
    }

    /**
     * `scan()`: a missing location throws an IOException; otherwise the pattern is split at `/`,
     * the file pattern is built and the directory or the jar is walked.
     */
    method Scan() returns (error: Option<Exception>)
      modifies this
      ensures location.None? ==> error == Some(IOException(Lit("Root location was null"))) && visited == old(visited)
      ensures location.Some? && FilePattern(supportedFileExts).Err? ==>
        error == Some(FilePattern(supportedFileExts).error) && visited == old(visited)
      ensures location.Some? && FilePattern(supportedFileExts).Ok? ==> filePat == FilePattern(supportedFileExts).value
      ensures location.Some? && location.value.JarRoot? && FilePattern(supportedFileExts).Ok? ==>
        error.None? && visited == JarVisited(EnvFor([]), location.value.entries, JarPattern(SplitOn(resourcePattern, SLASH)), old(visited))
      ensures location.Some? && location.value.DirRoot? && FilePattern(supportedFileExts).Ok? ==>
        var w := Walk(EnvFor(SplitOn(resourcePattern, SLASH)), Dir([], location.value.children), 0, 0, [], old(visited));
        if w.Ok? then error.None? && visited == w.value else error == Some(w.error)
    {
      if location.None? {
        return Some(IOException(Lit("Root location was null")));
      }
      var resourcePatterns := SplitOn(resourcePattern, SLASH);
      var pattern := InitFilePattern(supportedFileExts);
      if pattern.Err? {
        return Some(pattern.error);
      }
      filePat := pattern.value;
      match location.value
      case DirRoot(children) =>
        error := FindDirResources(Dir([], children), resourcePatterns, 0, []);
      case JarRoot(entries) =>
        FindJarResources(entries, resourcePatterns);
        error := None;
    }
  }
}
