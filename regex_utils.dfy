/**
 * `RegularExpressionUtils.wildcardToRegexp`: turns a shell-style wildcard (`*`, `?`) into an anchored
 * Java regex.  The regex is described by the atoms it is made of, so that its meaning can be stated.
 */
module RegexUtils {
  import opened Wrappers
  import opened JStrings

  /** The chars that get a backslash, `$^[](){|+\\.<>`; `}` is not among them. */
  const ESCAPES: JString := [36, 94, 91, 93, 40, 41, 123, 124, 43, 92, 46, 60, 62]
  const CARET: JChar := '^' as JChar
  const DOLLAR: JChar := '$' as JChar

  const BACKSLASH: JChar := '\\' as JChar
  const DOTC: JChar := '.' as JChar
  const STAR: JChar := '*' as JChar
  const QMARK: JChar := '?' as JChar

  /** The pieces the generated regex is made of. */
  datatype Atom =
    | Literal(c: JChar)  // the char itself (escaped when it is in ESCAPES)
    | AnyRun             // `.*`
    | AnyOptional        // `.?`

  /** How a wildcard char reads. */
  function CompileChar(c: JChar): Atom {
    if c in ESCAPES then Literal(c)
    else if c == STAR then AnyRun
    else if c == QMARK then AnyOptional
    else Literal(c)
  }

  function Compile(p: JString): (r: seq<Atom>)
    ensures |r| == |p| && forall i :: 0 <= i < |p| ==> r[i] == CompileChar(p[i])
  {
    seq(|p|, i requires 0 <= i < |p| => CompileChar(p[i]))
  }

  /** The regex text of one atom. */
  function RenderAtom(a: Atom): JString {
    match a
    case Literal(c) => if c in ESCAPES then [BACKSLASH, c] else [c]
    case AnyRun => [DOTC, STAR]
    case AnyOptional => [DOTC, QMARK]
  }

  function Render(atoms: seq<Atom>): JString {
    if |atoms| == 0 then [] else Render(atoms[..|atoms| - 1]) + RenderAtom(atoms[|atoms| - 1])
  }

  /**
   * `wildcardToRegexp(pattern)`, with the source's nested loops (the body of the outer one in
   * `TranslateChar`, the inner one in `IsEscapeChar`).  A null pattern throws on `pattern.length()`.
   */
  method WildcardToRegexp(pattern: Option<JString>) returns (r: Result<JString, Exception>)
    ensures pattern.None? ==> r == Err(NullPointerException)
    ensures pattern.Some? ==> r == Ok([CARET] + Render(Compile(pattern.value)) + [DOLLAR])
  {
    if pattern.None? {
      return Err(NullPointerException);
    }
    var p := pattern.value;
    var result := [CARET];
    var i := 0;
    while i < |p|
      invariant 0 <= i <= |p|
      invariant result == [CARET] + Render(Compile(p[..i]))
    {
      var piece := TranslateChar(p[i]);
      RenderCompileSnoc(p, i, result, piece);
      result := result + piece;
      i := i + 1;
    }
    assert p[..i] == p;
    r := Ok(result + [DOLLAR]);
  }

  /** One more char of the pattern adds its atom's text to the regex built so far. */
  lemma RenderCompileSnoc(p: JString, i: nat, result: JString, piece: JString)
    requires i < |p| && result == [CARET] + Render(Compile(p[..i])) && piece == RenderAtom(CompileChar(p[i]))
    ensures result + piece == [CARET] + Render(Compile(p[..i + 1]))
  {
    var atoms := Compile(p[..i + 1]);
    var prev := Compile(p[..i]);
    assert atoms[..i] == prev;
    assert p[..i + 1][i] == p[i];
    assert Render(atoms) == Render(prev) + RenderAtom(atoms[i]);
  }

  /** The text one wildcard char adds to the regex. */
  method TranslateChar(ch: JChar) returns (piece: JString)
    ensures piece == RenderAtom(CompileChar(ch))
  {
    var isEscaped := IsEscapeChar(ch);
    if isEscaped {
      piece := [BACKSLASH, ch];
    } else if ch == STAR {
      piece := [DOTC, STAR];
    } else if ch == QMARK {
      piece := [DOTC, QMARK];
    } else {
      piece := [ch];
    }
  }

  /** The inner loop of `wildcardToRegexp`: a scan of `ESCAPES` for `ch`. */
  method IsEscapeChar(ch: JChar) returns (isEscaped: bool)
    ensures isEscaped <==> ch in ESCAPES
  {
    isEscaped := false;
    var j := 0;
    while j < |ESCAPES|
      invariant 0 <= j <= |ESCAPES|
      invariant !isEscaped ==> ch !in ESCAPES[..j]
      invariant isEscaped ==> ch in ESCAPES
    {
      if ch == ESCAPES[j] {
        isEscaped := true;
        break;
      }
      j := j + 1;
    }
    assert !isEscaped ==> ESCAPES[..j] == ESCAPES;
  }

  // ------------------------------------------------------------------ reading the regex back

  /** Atoms a wildcard can produce: a bare `*`, `?` or `.` always comes out as a metachar. */
  predicate FromWildcard(atoms: seq<Atom>) {
    forall i :: 0 <= i < |atoms| ==> atoms[i].Literal? ==> atoms[i].c !in [STAR, QMARK]
  }

  /**
   * How a Java regex parser reads the text between the anchors: `\x` is the literal `x`, `.*` and
   * `.?` are the two metachars, and any other char (outside `*`, `?`, `.`, `\`) stands for itself.
   */
  function ReadAtoms(r: JString): Option<seq<Atom>>
    decreases |r|
  {
    if |r| == 0 then Some([])
    else if |r| >= 2 && r[0] == BACKSLASH then
      match ReadAtoms(r[2..]) case Some(rest) => Some([Literal(r[1])] + rest) case None => None
    else if |r| >= 2 && r[0] == DOTC && r[1] == STAR then
      match ReadAtoms(r[2..]) case Some(rest) => Some([AnyRun] + rest) case None => None
    else if |r| >= 2 && r[0] == DOTC && r[1] == QMARK then
      match ReadAtoms(r[2..]) case Some(rest) => Some([AnyOptional] + rest) case None => None
    else if r[0] in [STAR, QMARK, DOTC, BACKSLASH] then None
    else
      match ReadAtoms(r[1..]) case Some(rest) => Some([Literal(r[0])] + rest) case None => None
  }

  /** The generated regex is unambiguous: reading it back gives the atoms it was made from. */
  lemma {:induction false} ReadRender(atoms: seq<Atom>)
    requires FromWildcard(atoms)
    ensures ReadAtoms(Render(atoms)) == Some(atoms)
  {
    RenderIsRenderFrom(atoms);
    ReadRenderFrom(atoms, 0);
  }

  lemma {:induction false} ReadRenderFrom(atoms: seq<Atom>, k: nat)
    requires FromWildcard(atoms) && k <= |atoms|
    ensures ReadAtoms(RenderFrom(atoms, k)) == Some(atoms[k..])
    decreases |atoms| - k
  {
    if k < |atoms| {
      ReadRenderFrom(atoms, k + 1);
      var a := atoms[k];
      assert RenderFrom(atoms, k) == RenderAtom(a) + RenderFrom(atoms, k + 1);
      assert atoms[k..] == [a] + atoms[k + 1..];
      ReadAtomThenRest(a, RenderFrom(atoms, k + 1), atoms[k + 1..]);
    } else {
      assert RenderFrom(atoms, k) == [];
      assert ReadAtoms([]) == Some([]);
      assert atoms[k..] == [];
    }
  }

  /** The metachars and the backslash are escaped; `*` and `?` are not. */
  lemma EscapesFacts()
    ensures BACKSLASH in ESCAPES && DOTC in ESCAPES && STAR !in ESCAPES && QMARK !in ESCAPES
  {
    assert ESCAPES[9] == BACKSLASH && ESCAPES[10] == DOTC;
  }

  /** One rendered atom in front of text that reads back as `rest`. */
  lemma ReadAtomThenRest(a: Atom, tail: JString, rest: seq<Atom>)
    requires a.Literal? ==> a.c !in [STAR, QMARK]
    requires ReadAtoms(tail) == Some(rest)
    ensures ReadAtoms(RenderAtom(a) + tail) == Some([a] + rest)
  {
    EscapesFacts();
    var r := RenderAtom(a) + tail;
    if a.Literal? && a.c !in ESCAPES {
      assert r[0] == a.c && r[1..] == tail;
    } else {
      assert r[2..] == tail;
    }
  }

  function RenderFrom(atoms: seq<Atom>, k: nat): JString
    requires k <= |atoms|
    decreases |atoms| - k
  {
    if k == |atoms| then [] else RenderAtom(atoms[k]) + RenderFrom(atoms, k + 1)
  }

  lemma {:induction false} RenderIsRenderFrom(atoms: seq<Atom>)
    ensures Render(atoms) == RenderFrom(atoms, 0)
  {
    if |atoms| > 0 {
      var init := atoms[..|atoms| - 1];
      RenderIsRenderFrom(init);
      RenderFromSnoc(init, atoms[|atoms| - 1], 0);
      assert init + [atoms[|atoms| - 1]] == atoms;
    }
  }

  lemma {:induction false} RenderFromSnoc(atoms: seq<Atom>, a: Atom, k: nat)
    requires k <= |atoms|
    ensures RenderFrom(atoms + [a], k) == RenderFrom(atoms, k) + RenderAtom(a)
    decreases |atoms| - k
  {
    if k < |atoms| {
      RenderFromSnoc(atoms, a, k + 1);
      assert (atoms + [a])[k] == atoms[k];
    } else {
      assert (atoms + [a])[k] == a;
    }
  }

  /** Each char of ESCAPES gets exactly one backslash, `}` none, and `*`/`?` become `.*`/`.?`. */
  lemma EscapedChars(c: JChar)
    ensures c in ESCAPES ==> RenderAtom(CompileChar(c)) == [BACKSLASH, c]
    ensures RenderAtom(CompileChar('}' as JChar)) == Lit("}")
    ensures RenderAtom(CompileChar(STAR)) == Lit(".*") && RenderAtom(CompileChar(QMARK)) == Lit(".?")
  {
    assert '}' as JChar !in ESCAPES by {
      forall i | 0 <= i < |ESCAPES| ensures ESCAPES[i] != '}' as JChar {
      }
    }
  }

  lemma CompileFromWildcard(p: JString)
    ensures FromWildcard(Compile(p))
  {
  }

  /** The regex of any wildcard reads back as that wildcard's atoms. */
  lemma {:induction false} RegexReadsBack(p: JString)
    ensures ReadAtoms(Render(Compile(p))) == Some(Compile(p))
  {
    RenderIsRenderFrom(Compile(p));
    ReadRender(Compile(p));
  }

  // ------------------------------------------------------------------ what the regex matches

  /** `String.matches` with the anchored regex made of `atoms`: `.` skips line terminators. */
  function AtomsMatch(atoms: seq<Atom>, s: JString): bool
    decreases |atoms|, |s|
  {
    if |atoms| == 0 then |s| == 0
    else match atoms[0]
      case Literal(c) => |s| > 0 && s[0] == c && AtomsMatch(atoms[1..], s[1..])
      case AnyRun =>
        AtomsMatch(atoms[1..], s) || (|s| > 0 && !IsLineTerminator(s[0]) && AtomsMatch(atoms, s[1..]))
      case AnyOptional =>
        AtomsMatch(atoms[1..], s) || (|s| > 0 && !IsLineTerminator(s[0]) && AtomsMatch(atoms[1..], s[1..]))
  }

  /** `.*` followed by `rest` matches any line-terminator-free text before a match of `rest`. */
  lemma {:induction false} AnyRunSkips(rest: seq<Atom>, skipped: JString, s: JString)
    requires forall i :: 0 <= i < |skipped| ==> !IsLineTerminator(skipped[i])
    requires AtomsMatch(rest, s)
    ensures AtomsMatch([AnyRun] + rest, skipped + s)
  {
    if |skipped| == 0 {
      assert ([AnyRun] + rest)[1..] == rest;
      assert skipped + s == s;
    } else {
      AnyRunSkips(rest, skipped[1..], s);
      assert (skipped + s)[1..] == skipped[1..] + s;
    }
  }

  /** `?` matches zero or one char: both `ab` and `b` match `?b`, and `b` alone matches `b`. */
  lemma QuestionIsZeroOrOne()
    ensures AtomsMatch(Compile(Lit("?b")), Lit("ab"))
    ensures AtomsMatch(Compile(Lit("?b")), Lit("b"))
    ensures !AtomsMatch(Compile(Lit("?b")), Lit("aab"))
  {
    var a := Compile(Lit("?b"));
    assert a == [AnyOptional, Literal('b' as JChar)];
    assert a[1..] == [Literal('b' as JChar)];
    assert Lit("ab")[1..] == Lit("b");
    assert Lit("aab")[1..] == Lit("ab");
    assert Lit("b")[1..] == [];
  }

  /** The unit test's case: `job information` matches the regex of `*job*`. */
  lemma JobInformation()
    ensures AtomsMatch(Compile(Lit("*job*")), Lit("job information"))
  {
    var a := Compile(Lit("*job*"));
    var s := Lit("job information");
    assert a == [AnyRun, Literal('j' as JChar), Literal('o' as JChar), Literal('b' as JChar), AnyRun];
    var tail := s[3..];
    AnyRunSkips([], tail, []);
    assert tail + [] == tail;
    assert [AnyRun] + [] == a[4..];
    assert a[3..][1..] == a[4..];
    assert a[2..][1..] == a[3..];
    assert a[1..][1..] == a[2..];
    assert s[1..][1..] == s[2..];
    assert s[2..][1..] == s[3..];
    assert AtomsMatch(a[1..], s);
  }
}
