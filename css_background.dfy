/**
 * `CSSUtils.extractBackgroundColorFromStyle`: a `CSSStyleParser` subclass whose callbacks remember
 * whether the current declaration is `background`/`background-color` and the last colour given
 * under such a declaration.
 *
 * The parser model records its callbacks as a trace of events; the callbacks of this subclass
 * never influence the parse, so running them over the finished trace is the same as running them
 * as the parse goes.
 */
module CSSBackground {
  import opened Wrappers
  import opened JStrings
  import CSSUtils
  import opened CSSStyleParser

  // ---------------------------------------------------------------- the callbacks

  /** The two fields of the subclass. */
  datatype Capture = Capture(background: bool, color: Option<int>)

  /** `"background".equalsIgnoreCase(name) || "background-color".equalsIgnoreCase(name)`. */
  predicate IsBackgroundName(name: JString) {
    EqualsIgnoreCase(Lit("background"), name) || EqualsIgnoreCase(Lit("background-color"), name)
  }

  /** `new Color(rgb).getRGB()` with the alpha byte left out: the low 24 bits. */
  function ColorOf(rgb: int): (r: int)
    ensures 0 <= r < 0x100_0000
    ensures 0 <= rgb < 0x100_0000 ==> r == rgb
  {
    rgb % 0x100_0000
  }

  /** The colour an event offers to the subclass: a `color` callback, or an `ident` naming a known colour. */
  function Offered(e: Event): Option<int> {
    match e
    case ColorValue(rgb) => Some(ColorOf(rgb))
    case IdentValue(name) => CSSUtils.CssNamedColor(Some(name))
    case _ => None
  }

  /** One callback: `declaration` sets the flag, `color`/`ident` take a colour while it is set. */
  function Step(c: Capture, e: Event): Capture {
    match e
    case Declaration(name) => c.(background := IsBackgroundName(name))
    case _ =>
      if c.background && Offered(e).Some? then c.(color := Offered(e)) else c
  }

  /** The fields after the callbacks of `trace`, from a fresh subclass object. */
  function Captured(trace: seq<Event>): Capture
    decreases |trace|
  {
    if |trace| == 0 then Capture(false, None)
    else Step(Captured(trace[..|trace| - 1]), trace[|trace| - 1])
  }

  // ---------------------------------------------------------------- the subclass object

  class BackgroundCapture {
    var background: bool
    var color: Option<int>

    function Fields(): Capture
      reads this
    {
      Capture(background, color)
    }

    /** The anonymous subclass is created with both fields at their Java defaults. */
    constructor ()
      ensures Fields() == Captured([])
    {
      background := false;
      color := None;
    }

    /** `declaration(name)`. */
    method OnDeclaration(name: JString)
      modifies this
      ensures background == IsBackgroundName(name) && color == old(color)
    {
      background := IsBackgroundName(name);
    }

    /** `color(rgb)`. */
    method OnColor(rgb: int)
      modifies this
      ensures background == old(background)
      ensures color == if old(background) then Some(ColorOf(rgb)) else old(color)
    {
      if background {
        color := Some(ColorOf(rgb));
      }
    }

    /** `ident(name)`. */
    method OnIdent(name: JString)
      modifies this
      ensures background == old(background)
      ensures color == if old(background) && CSSUtils.CssNamedColor(Some(name)).Some?
                       then CSSUtils.CssNamedColor(Some(name)) else old(color)
    {
      if background {
        var c := CSSUtils.CssNamedColor(Some(name));
        if c.Some? {
          color := c;
        }
      }
    }

    /** The callback the parser makes for one event; the others are the parser's empty defaults. */
    method On(e: Event)
      modifies this
      ensures Fields() == Step(old(Fields()), e)
    {
      match e
      case Declaration(name) => OnDeclaration(name);
      case ColorValue(rgb) => OnColor(rgb);
      case IdentValue(name) => OnIdent(name);
      case _ =>
    }

    /** The callbacks of a parse, in order. */
    method Replay(trace: seq<Event>)
      requires Fields() == Captured([])
      modifies this
      ensures Fields() == Captured(trace)
    {
      var i := 0;
      while i < |trace|
        invariant i <= |trace|
        invariant Fields() == Captured(trace[..i])
      {
        assert trace[..i + 1][..i] == trace[..i];
        On(trace[i]);
        i := i + 1;
      }
      assert trace[..i] == trace;
    }
  }

  // ---------------------------------------------------------------- extractBackgroundColorFromStyle

  /**
   * The result of `extractBackgroundColorFromStyle`: a `null` style throws from the parser's
   * constructor; a completed parse gives the captured colour; a `ParseException` is caught and
   * gives `null` whatever was captured; a `NumberFormatException` from the parser is not caught.
   */
  function ExtractBackground(style: Option<JString>): Result<Option<int>, Exception> {
    match style
    case None => Err(NullPointerException)
    case Some(s) =>
      match ParseStyle(s)
      case Done(st) => Ok(Captured(st.trace).color)
      case Failed(_, ParseException(_, _)) => Ok(None)
      case Failed(_, NumberFormatError) => Err(NumberFormatException)
  }

  /** `extractBackgroundColorFromStyle`. */
  method ExtractBackgroundColorFromStyle(style: Option<JString>) returns (r: Result<Option<int>, Exception>)
    ensures r == ExtractBackground(style)
  {
    if style.None? {
      return Err(NullPointerException);
    }
    var parser := new StyleParser(style.value);
    var capture := new BackgroundCapture();
    var err := parser.Parse();
    match err {
      case None =>
        capture.Replay(parser.trace);
        return Ok(capture.color);
      case Some(ParseException(_, _)) =>
        return Ok(None);
      case Some(NumberFormatError) =>
        return Err(NumberFormatException);
    }
  }

  // ---------------------------------------------------------------- what the captured colour is

  /** The name of the last declaration among the first `i` events, if any. */
  function LastDeclaration(trace: seq<Event>, i: nat): Option<JString>
    requires i <= |trace|
  {
    if i == 0 then None
    else if trace[i - 1].Declaration? then Some(trace[i - 1].name)
    else LastDeclaration(trace, i - 1)
  }

  /** Event `i` offers a colour and the declaration it belongs to is a background one. */
  predicate CapturedAt(trace: seq<Event>, i: nat)
    requires i < |trace|
  {
    Offered(trace[i]).Some? &&
    match LastDeclaration(trace, i)
    case Some(name) => IsBackgroundName(name)
    case None => false
  }

  /** Event `i` is captured and no later event is. */
  predicate LastCapturedAt(trace: seq<Event>, i: nat)
    requires i < |trace|
  {
    CapturedAt(trace, i) && forall j :: i < j < |trace| ==> !CapturedAt(trace, j)
  }

  /** Looking at a prefix does not change what precedes an event in it. */
  lemma {:induction false} LastDeclarationPrefix(trace: seq<Event>, n: nat, i: nat)
    requires i <= n <= |trace|
    ensures LastDeclaration(trace[..n], i) == LastDeclaration(trace, i)
  {
    if i > 0 {
      assert trace[..n][i - 1] == trace[i - 1];
      LastDeclarationPrefix(trace, n, i - 1);
    }
  }

  /** The flag is set exactly when the last declaration so far is a background one. */
  lemma {:induction false} CapturedFlag(trace: seq<Event>)
    ensures Captured(trace).background ==
      (LastDeclaration(trace, |trace|).Some? && IsBackgroundName(LastDeclaration(trace, |trace|).value))
    decreases |trace|
  {
    if |trace| > 0 {
      var n := |trace| - 1;
      CapturedFlag(trace[..n]);
      LastDeclarationPrefix(trace, n, n);
    }
  }

  /** No colour is captured exactly when no event is captured. */
  lemma {:induction false} CapturedNone(trace: seq<Event>)
    ensures Captured(trace).color.None? <==> forall i :: 0 <= i < |trace| ==> !CapturedAt(trace, i)
    decreases |trace|
  {
    if |trace| > 0 {
      var n := |trace| - 1;
      CapturedNone(trace[..n]);
      CapturedFlag(trace[..n]);
      LastDeclarationPrefix(trace, n, n);
      forall i | 0 <= i < n
        ensures CapturedAt(trace[..n], i) == CapturedAt(trace, i)
      {
        LastDeclarationPrefix(trace, n, i);
      }
      if CapturedAt(trace, n) {
        assert Captured(trace).color.Some?;
      } else {
        assert Captured(trace).color == Captured(trace[..n]).color;
      }
    }
  }

  /** A captured colour is the one offered by the last captured event. */
  lemma {:induction false} CapturedLast(trace: seq<Event>)
    requires Captured(trace).color.Some?
    ensures exists i :: 0 <= i < |trace| && LastCapturedAt(trace, i) && Offered(trace[i]) == Captured(trace).color
    decreases |trace|
  {
    var n := |trace| - 1;
    CapturedFlag(trace[..n]);
    LastDeclarationPrefix(trace, n, n);
    forall i | 0 <= i < n
      ensures CapturedAt(trace[..n], i) == CapturedAt(trace, i)
    {
      LastDeclarationPrefix(trace, n, i);
    }
    if CapturedAt(trace, n) {
      assert Offered(trace[n]) == Captured(trace).color;
    } else {
      assert Captured(trace) == Captured(trace[..n]) || trace[n].Declaration?;
      CapturedLast(trace[..n]);
      var i :| 0 <= i < n && LastCapturedAt(trace[..n], i) && Offered(trace[..n][i]) == Captured(trace[..n]).color;
      assert LastCapturedAt(trace, i) && Offered(trace[i]) == Captured(trace).color;
    }
  }

  /** The result: null, or the colour of the last captured event, when the parse completes. */
  lemma ExtractLastColor(s: JString)
    requires ParseStyle(s).Done?
    ensures var tr := ParseStyle(s).st.trace;
      ExtractBackground(Some(s)).Ok? &&
      (ExtractBackground(Some(s)).value.None? <==> forall i :: 0 <= i < |tr| ==> !CapturedAt(tr, i))
    ensures var tr := ParseStyle(s).st.trace;
      ExtractBackground(Some(s)).value.Some? ==>
        exists i :: 0 <= i < |tr| && LastCapturedAt(tr, i) && Offered(tr[i]) == ExtractBackground(Some(s)).value
  {
    var tr := ParseStyle(s).st.trace;
    CapturedNone(tr);
    if Captured(tr).color.Some? {
      CapturedLast(tr);
    }
  }

  /** A `ParseException` gives `null` even when a background colour was already captured. */
  lemma ParseErrorDropsColor(s: JString)
    requires ParseStyle(s).Failed? && ParseStyle(s).error.ParseException?
    ensures ExtractBackground(Some(s)) == Ok(None)
    ensures Captured(ParseStyle(s).trace).color.Some? ==> ExtractBackground(Some(s)) != Ok(Captured(ParseStyle(s).trace).color)
  {
  }

  /** Only a `null` style or a number too long for an `int` escapes as an exception. */
  lemma ExtractErrors(style: Option<JString>)
    ensures ExtractBackground(style).Err? <==>
      style.None? || (ParseStyle(style.value).Failed? && ParseStyle(style.value).error.NumberFormatError?)
  {
  }
}
