/**
 * What the tokens of `HtmlParser.next()` are, stated over `HtmlScan.Step`: start tags are pushed,
 * every call makes progress until `EOF`, the end of input closes exactly the open elements whose
 * end tag is required (innermost first), an end tag closes everything above the element it names,
 * and character references decode to the number or the entity they name.
 */
module HtmlSteps {
  import opened Wrappers
  import opened JStrings
  import opened HtmlTables
  import opened HtmlScan

  // ---------------------------------------------------------------- names and stacks

  /** A tag or attribute name as the parser reads it: a letter, then letters, digits, `:` and `-`. */
  predicate IsName(s: JString) {
    |s| > 0 && IsAlpha(s[0]) && forall j :: 1 <= j < |s| ==> IsNamePart(s[j])
  }

  /** The entries of `s` whose end tag is required, in order. */
  function RequiredEntries(s: seq<JString>): (r: seq<JString>)
    ensures |r| <= |s|
    decreases |s|
  {
    if |s| == 0 then []
    else RequiredEntries(s[..|s| - 1]) + (if CloseTagRequired(s[|s| - 1]) then [s[|s| - 1]] else [])
  }

  /** `s` back to front. */
  function Reversed<T>(s: seq<T>): (r: seq<T>)
    ensures |r| == |s|
    decreases |s|
  {
    if |s| == 0 then [] else [s[|s| - 1]] + Reversed(s[..|s| - 1])
  }

  /** Entry `j` of the reversed sequence is entry `|s| - 1 - j` of `s`. */
  lemma {:induction false} ReversedAt<T>(s: seq<T>)
    ensures forall j :: 0 <= j < |s| ==> Reversed(s)[j] == s[|s| - 1 - j]
    decreases |s|
  {
    if |s| > 0 {
      ReversedAt(s[..|s| - 1]);
    }
  }

  lemma {:induction false} RequiredAppend(a: seq<JString>, b: seq<JString>)
    ensures RequiredEntries(a + b) == RequiredEntries(a) + RequiredEntries(b)
    decreases |b|
  {
    if |b| == 0 {
      assert a + b == a;
    } else {
      var n := |b| - 1;
      assert (a + b)[..|a + b| - 1] == a + b[..n];
      assert (a + b)[|a + b| - 1] == b[n];
      RequiredAppend(a, b[..n]);
    }
  }

  /** The required entries are exactly the entries of `s` whose end tag is required. */
  lemma {:induction false} RequiredEntriesMembers(s: seq<JString>, x: JString)
    ensures x in RequiredEntries(s) <==> x in s && CloseTagRequired(x)
    decreases |s|
  {
    if |s| > 0 {
      var t := s[..|s| - 1];
      RequiredEntriesMembers(t, x);
      assert s == t + [s[|s| - 1]];
    }
  }

  /** No entry of `s` has a required end tag. */
  lemma {:induction false} RequiredNone(s: seq<JString>)
    requires forall j :: 0 <= j < |s| ==> !CloseTagRequired(s[j])
    ensures RequiredEntries(s) == []
    decreases |s|
  {
    if |s| > 0 {
      RequiredNone(s[..|s| - 1]);
    }
  }

  /** Entries from `n` on that are not required add nothing. */
  lemma {:induction false} RequiredUpTo(s: seq<JString>, low: nat, n: nat)
    requires low <= n <= |s|
    requires forall j :: n <= j < |s| ==> !CloseTagRequired(s[j])
    ensures RequiredEntries(s[low..]) == RequiredEntries(s[low..n])
    decreases |s|
  {
    if n < |s| {
      var t := s[..|s| - 1];
      RequiredUpTo(t, low, n);
      assert t[low..n] == s[low..n];
      assert s[low..][..|s| - 1 - low] == t[low..];
    } else {
      assert s[low..] == s[low..n];
    }
  }

  /** A last entry that is required is the last required entry. */
  lemma RequiredLast(t: seq<JString>, x: JString)
    requires |t| > 0 && t[|t| - 1] == x && CloseTagRequired(x)
    ensures RequiredEntries(t) == RequiredEntries(t[..|t| - 1]) + [x]
  {
  }

  /** The entries above the innermost required one above `low` add nothing. */
  lemma InnermostUpTo(s: seq<JString>, low: nat)
    requires low <= |s|
    ensures RequiredEntries(s[low..]) == RequiredEntries(s[low..InnermostRequired(s, low, |s|)])
  {
    NoneRequiredAbove(s, low, |s|);
    RequiredUpTo(s, low, InnermostRequired(s, low, |s|));
  }

  /** The innermost required entry comes last. */
  lemma InnermostLast(s: seq<JString>, low: nat, m: nat)
    requires low < m <= |s| && CloseTagRequired(s[m - 1])
    ensures RequiredEntries(s[low..m]) == RequiredEntries(s[low..m - 1]) + [s[m - 1]]
  {
    var t := s[low..m];
    RequiredLast(t, s[m - 1]);
    assert t[..|t| - 1] == s[low..m - 1];
  }

  /**
   * Splitting a stack at the innermost required entry above `low`: the required entries from
   * `low` on are those below it, then it.
   */
  lemma InnermostSplit(s: seq<JString>, low: nat, m: nat)
    requires low <= |s| && m == InnermostRequired(s, low, |s|)
    ensures m > low ==> RequiredEntries(s[low..]) == RequiredEntries(s[low..m - 1]) + [s[m - 1]]
    ensures m == low ==> RequiredEntries(s[low..]) == []
  {
    InnermostUpTo(s, low);
    if m > low {
      InnermostIsRequired(s, low, |s|);
      InnermostLast(s, low, m);
    } else {
      assert s[low..m] == [];
    }
  }

  // ---------------------------------------------------------------- start tags

  /** A start tag from the loop of `next()` has a name and is pushed. */
  lemma {:induction false} ScanStartTag(d: JString, p: Parser)
    requires p.offset <= |d| && p.mode.Normal?
    ensures var r := Scan(d, p);
      r.kind.StartTag? ==> r.after.stack == p.stack + [r.after.tagName] && IsName(r.after.tagName)
    decreases |d| - p.offset
  {
    var i := p.offset;
    if i < |d| && d[i] == '<' as JChar && i + 1 < |d| {
      if d[i + 1] == '?' as JChar {
        ScanStartTag(d, p.(offset := InstructionEnd(d, i + 2)));
      } else if d[i + 1] != '!' as JChar && d[i + 1] != '/' as JChar && IsAlpha(d[i + 1]) {
        var e := NameEnd(d, i + 2);
        if e < |d| {
          assert IsName(d[i + 1..e]);
        }
      }
    }
  }

  /** `startTag`: every start tag `next()` returns is a name, pushed on the stack of open elements. */
  lemma StartTagPushed(d: JString, p: Parser)
    requires Valid(d, p)
    ensures var r := Step(d, p);
      r.kind.StartTag? ==> r.after.stack == p.stack + [r.after.tagName] && IsName(r.after.tagName)
  {
    if p.mode.Normal? {
      ScanStartTag(d, p);
    } else if p.mode.OpenClose? {
      ScanStartTag(d, p.(mode := Normal));
    }
  }

  /** In normal mode, `<` and a letter start a start tag. */
  lemma StepAtStartTag(d: JString, p: Parser)
    requires Valid(d, p) && p.mode.Normal?
    requires p.offset + 1 < |d| && d[p.offset] == '<' as JChar && IsAlpha(d[p.offset + 1])
    ensures Step(d, p) == StartTagStep(d, p, p.offset + 1)
  {
  }

  /** A name followed by neither blanks nor the end of input has no attributes. */
  lemma StartTagNoAttributes(d: JString, p: Parser, i: nat, e: nat)
    requires 0 < i < e < |d| && NameEnd(d, i + 1) == e && !IsSpace(d[e])
    ensures StartTagStep(d, p, i) == TagClose(d, p.(tagName := d[i..e], attrs := []), i, e)
  {
    assert SkipSpaces(d, e) == e;
  }

  /** `<name>`: a start tag without attributes, pushed. */
  lemma PlainStartTag(d: JString, p: Parser, e: nat)
    requires Valid(d, p) && p.mode.Normal?
    requires p.offset + 2 <= e < |d| && d[p.offset] == '<' as JChar && IsAlpha(d[p.offset + 1])
    requires NameEnd(d, p.offset + 2) == e && d[e] == '>' as JChar
    ensures Step(d, p) == Emit(StartTag, p.(offset := e + 1, tagName := d[p.offset + 1..e], attrs := [],
                                            stack := p.stack + [d[p.offset + 1..e]]))
  {
    StepAtStartTag(d, p);
    ClosedStartTag(d, p, p.offset + 1, e);
  }

  /** A name at `i` ended by `>` at `e` is a start tag without attributes. */
  lemma ClosedStartTag(d: JString, p: Parser, i: nat, e: nat)
    requires 0 < i < e < |d| && NameEnd(d, i + 1) == e && d[e] == '>' as JChar
    ensures StartTagStep(d, p, i) == Emit(StartTag, p.(offset := e + 1, tagName := d[i..e], attrs := [],
                                                       stack := p.stack + [d[i..e]]))
  {
    StartTagNoAttributes(d, p, i, e);
    var q := p.(tagName := d[i..e], attrs := []);
    assert TagClose(d, q, i, e) == Emit(StartTag, q.(offset := e + 1, stack := q.stack + [q.tagName]));
  }

  /**
   * `<name/>`: the parser returns the start tag, then, when the end tag of `name` is required, the
   * end tag with the stack as it was before the start tag; otherwise it goes on with what follows.
   */
  lemma SelfClosing(d: JString, p: Parser)
    requires Valid(d, p)
    requires Step(d, p).kind.StartTag? && Step(d, p).after.mode.OpenClose?
    ensures var q := Step(d, p).after;
      CloseTagRequired(q.tagName) ==>
        Step(d, q) == Emit(EndTag, q.(mode := Normal, stack := p.stack))
    ensures var q := Step(d, p).after;
      !CloseTagRequired(q.tagName) ==> Step(d, q) == Scan(d, q.(mode := Normal))
  {
    StartTagPushed(d, p);
    var q := Step(d, p).after;
    assert q.stack[..|q.stack| - 1] == p.stack;
  }

  /**
   * The attributes read from `k` on (`r`) extend those already read, and every attribute name is a
   * name.
   */
  lemma {:induction false} AttributeNames(d: JString, k: nat, attrs: seq<Attribute>, r: seq<Attribute>)
    requires k <= |d| && r == AttrsFrom(d, k, attrs).attrs
    requires forall j :: 0 <= j < |attrs| ==> IsName(attrs[j].name)
    ensures |attrs| <= |r| && r[..|attrs|] == attrs
    ensures forall j :: 0 <= j < |r| ==> IsName(r[j].name)
    decreases |d| - k
  {
    if k < |d| && IsAlpha(d[k]) {
      var a := AttrAt(d, k);
      var more := attrs + [a.attr];
      assert IsName(a.attr.name);
      assert forall j :: 0 <= j < |more| ==> IsName(more[j].name);
      if a.spaced {
        AttributeNames(d, a.next, more, r);
        assert r[..|more|][..|attrs|] == r[..|attrs|];
      } else {
        assert r == more;
      }
    } else {
      assert r == attrs;
    }
  }

  // ---------------------------------------------------------------- progress and EOF

  /** The offset moves on, or it stays and the stack of open elements shrinks. */
  predicate Advances(p: Parser, q: Parser) {
    p.offset < q.offset || (p.offset == q.offset && |q.stack| < |p.stack|)
  }

  /** The loop of `next()`: `EOF` only at the end of input with an empty stack, otherwise progress. */
  lemma {:induction false} ScanProgress(d: JString, p: Parser)
    requires p.offset <= |d| && p.mode.Normal?
    ensures var r := Scan(d, p);
      r.kind.Eof? ==> r.after.offset == |d| && r.after.stack == [] && r.after.mode.Normal?
    ensures var r := Scan(d, p); !r.kind.Eof? ==> Advances(p, r.after)
    decreases |d| - p.offset
  {
    var i := p.offset;
    if i < |d| && d[i] == '<' as JChar && i + 1 < |d| && d[i + 1] == '?' as JChar {
      ScanProgress(d, p.(offset := InstructionEnd(d, i + 2)));
    } else if i < |d| && d[i] != '<' as JChar {
      assert TextRun(d, i).next > i;
    }
  }

  /** Every token but `EOF` makes progress; `EOF` leaves the parser at the end with an empty stack. */
  lemma StepProgress(d: JString, p: Parser)
    requires Valid(d, p)
    ensures var r := Step(d, p);
      r.kind.Eof? ==> r.after.offset == |d| && r.after.stack == [] && r.after.mode.Normal?
    ensures var r := Step(d, p); !r.kind.Eof? ==> Advances(p, r.after)
  {
    if p.mode.Normal? {
      ScanProgress(d, p);
    } else if p.mode.OpenClose? {
      ScanProgress(d, p.(mode := Normal));
    }
  }

  /** Once `next()` has returned `EOF`, it returns `EOF` again and changes nothing. */
  lemma EofRepeats(d: JString, p: Parser)
    requires Valid(d, p) && Step(d, p).kind.Eof?
    ensures Step(d, Step(d, p).after) == Step(d, p)
  {
    StepProgress(d, p);
  }

  /** The tokens `next()` returns from `p` on, up to and including the first `EOF`. */
  function Tokens(d: JString, p: Parser): (r: seq<Emit>)
    requires Valid(d, p)
    ensures |r| > 0 && r[0] == Step(d, p) && r[|r| - 1].kind.Eof?
    ensures forall j :: 0 <= j < |r| - 1 ==> !r[j].kind.Eof?
    ensures forall j {:trigger r[j]} :: 0 < j < |r| ==> Valid(d, r[j - 1].after) && r[j] == Step(d, r[j - 1].after)
    decreases |d| - p.offset, |p.stack|
  {
    var e := Step(d, p);
    if e.kind.Eof? then [e]
    else
      StepProgress(d, p);
      [e] + Tokens(d, e.after)
  }

  /** The tag names of tokens. */
  function TagNames(r: seq<Emit>): (n: seq<JString>)
    ensures |n| == |r| && forall j :: 0 <= j < |r| ==> n[j] == r[j].after.tagName
  {
    seq(|r|, j requires 0 <= j < |r| => r[j].after.tagName)
  }

  lemma ReversedSnoc<T>(s: seq<T>, x: T)
    ensures Reversed(s + [x]) == [x] + Reversed(s)
  {
    assert (s + [x])[..|s|] == s;
  }

  /** One more token in front. */
  lemma TagNamesFront(e: Emit, rest: seq<Emit>)
    ensures TagNames([e] + rest) == [e.after.tagName] + TagNames(rest)
  {
  }

  /** Tokens before the last, one more in front. */
  lemma TagNamesCons(e: Emit, rest: seq<Emit>)
    requires |rest| > 0
    ensures ([e] + rest)[..|rest|] == [e] + rest[..|rest| - 1]
    ensures TagNames([e] + rest[..|rest| - 1]) == [e.after.tagName] + TagNames(rest[..|rest| - 1])
  {
  }

  /** One more end tag, named `top`, in front of end tags that close `names` innermost first. */
  lemma ClosedCons(x: Emit, rest: seq<Emit>, names: seq<JString>, top: JString)
    requires |rest| > 0 && x.kind.EndTag? && x.after.tagName == top
    requires forall j :: 0 <= j < |rest| - 1 ==> rest[j].kind.EndTag?
    requires TagNames(rest[..|rest| - 1]) == Reversed(names)
    ensures forall j :: 0 <= j < |[x] + rest| - 1 ==> ([x] + rest)[j].kind.EndTag?
    ensures TagNames(([x] + rest)[..|[x] + rest| - 1]) == Reversed(names + [top])
  {
    TagNamesCons(x, rest);
    ReversedSnoc(names, top);
  }

  /** A token that is not `EOF` is followed by the tokens from the state after it. */
  lemma TokensCons(d: JString, p: Parser)
    requires Valid(d, p) && !Step(d, p).kind.Eof?
    ensures Tokens(d, p) == [Step(d, p)] + Tokens(d, Step(d, p).after)
  {
  }

  /** An `EOF` token is the last. */
  lemma TokensEof(d: JString, p: Parser)
    requires Valid(d, p) && Step(d, p).kind.Eof?
    ensures Tokens(d, p) == [Step(d, p)]
  {
  }

  /** At the end of input, `next()` is the closing step. */
  lemma StepAtEnd(d: JString, p: Parser)
    requires Valid(d, p) && p.mode.Normal? && p.offset == |d|
    ensures Step(d, p) == Closing(p)
  {
  }

  /** With no open element whose end tag is required, the closing step is `EOF`. */
  lemma ClosingNone(p: Parser)
    requires InnermostRequired(p.stack, 0, |p.stack|) == 0
    ensures Closing(p) == Emit(Eof, p.(stack := []))
    ensures RequiredEntries(p.stack) == []
  {
    var s := p.stack;
    InnermostSplit(s, 0, 0);
    assert s[0..] == s;
  }

  /** Otherwise the closing step closes the innermost open element whose end tag is required. */
  lemma ClosingTop(p: Parser, n: nat)
    requires 0 < n == InnermostRequired(p.stack, 0, |p.stack|)
    ensures Closing(p) == Emit(EndTag, p.(stack := p.stack[..n - 1], tagName := p.stack[n - 1]))
    ensures RequiredEntries(p.stack) == RequiredEntries(p.stack[..n - 1]) + [p.stack[n - 1]]
  {
    var s := p.stack;
    InnermostSplit(s, 0, n);
    assert s[0..] == s;
    assert s[0..n - 1] == s[..n - 1];
  }

  /**
   * At the end of input the parser closes the open elements whose end tag is required, innermost
   * first, and then returns `EOF`; the others are dropped.
   */
  lemma {:induction false} EndOfInput(d: JString, p: Parser)
    requires Valid(d, p) && p.mode.Normal? && p.offset == |d|
    ensures forall j :: 0 <= j < |Tokens(d, p)| - 1 ==> Tokens(d, p)[j].kind.EndTag?
    ensures TagNames(Tokens(d, p)[..|Tokens(d, p)| - 1]) == Reversed(RequiredEntries(p.stack))
    decreases |p.stack|, 1
  {
    var n := InnermostRequired(p.stack, 0, |p.stack|);
    StepAtEnd(d, p);
    if n == 0 {
      ClosingNone(p);
      TokensEof(d, p);
    } else {
      EndOfInputTop(d, p, n);
    }
  }

  /** `EndOfInput` when an open element at `n - 1` needs its end tag: that end tag comes first. */
  lemma {:induction false} EndOfInputTop(d: JString, p: Parser, n: nat)
    requires Valid(d, p) && p.mode.Normal? && p.offset == |d|
    requires 0 < n == InnermostRequired(p.stack, 0, |p.stack|)
    ensures forall j :: 0 <= j < |Tokens(d, p)| - 1 ==> Tokens(d, p)[j].kind.EndTag?
    ensures TagNames(Tokens(d, p)[..|Tokens(d, p)| - 1]) == Reversed(RequiredEntries(p.stack))
    decreases |p.stack|, 0
  {
    var s := p.stack;
    StepAtEnd(d, p);
    ClosingTop(p, n);
    var q := p.(stack := s[..n - 1], tagName := s[n - 1]);
    EndOfInput(d, q);
    TokensCons(d, p);
    ClosedCons(Emit(EndTag, q), Tokens(d, q), RequiredEntries(s[..n - 1]), s[n - 1]);
  }

  // ---------------------------------------------------------------- end tags

  /** While the parser is popping, `next()` is `popTags`. */
  lemma StepPopping(d: JString, p: Parser)
    requires Valid(d, p) && p.mode.Popping?
    ensures Step(d, p) == PopTags(p)
  {
  }

  /**
   * The tokens `next()` returns while the parser is popping (each one `popTags`, by
   * `StepPopping`), one end tag per call.
   */
  function PopRun(p: Parser): (r: seq<Emit>)
    requires p.mode.Popping? ==> 0 <= p.popIndex < |p.stack|
    ensures forall j :: 0 <= j < |r| ==> r[j].kind.EndTag?
    decreases |p.stack|
  {
    if !p.mode.Popping? then []
    else
      var e := PopTags(p);
      [e] + PopRun(e.after)
  }

  /** The parser after tokens `r` taken from `p`. */
  function Final(p: Parser, r: seq<Emit>): Parser {
    if |r| == 0 then p else r[|r| - 1].after
  }

  /**
   * The names `popTags` returns, one per call, when popping down to `k`: the entries above `k`
   * whose end tag is required, innermost first, then the entry at `k`.
   */
  function Popped(s: seq<JString>, k: nat): seq<JString>
    requires k < |s|
  {
    Reversed(RequiredEntries(s[k + 1..])) + [s[k]]
  }

  /** When the innermost required entry above `k` is at `m - 1`, it comes first. */
  lemma PoppedFront(s: seq<JString>, k: nat, m: nat)
    requires k + 1 < m <= |s|
    requires RequiredEntries(s[k + 1..]) == RequiredEntries(s[k + 1..m - 1]) + [s[m - 1]]
    ensures Popped(s, k) == [s[m - 1]] + Popped(s[..m - 1], k)
  {
    assert s[..m - 1][k + 1..] == s[k + 1..m - 1];
    ReversedSnoc(RequiredEntries(s[k + 1..m - 1]), s[m - 1]);
  }

  /** Popping from a parser that is not yet popping: `popTags` and then the run it starts. */
  lemma PopRunStart(q: Parser)
    requires 0 <= q.popIndex < |q.stack|
    ensures PopRun(q.(mode := Popping)) == [PopTags(q)] + PopRun(PopTags(q).after)
  {
    assert PopTags(q.(mode := Popping)) == PopTags(q);
  }

  /**
   * The calls of `next()` while popping: the end tags of the entries above `popIndex` whose end
   * tag is required, innermost first, then the entry at `popIndex`.
   */
  lemma {:induction false} PopsDown(p: Parser)
    requires p.mode.Popping? && 0 <= p.popIndex < |p.stack|
    ensures TagNames(PopRun(p)) == Popped(p.stack, p.popIndex)
    decreases |p.stack|
  {
    var m := PopTop(p);
    var e := PopTags(p);
    assert PopRun(p) == [e] + PopRun(e.after);
    InnermostSplit(p.stack, p.popIndex + 1, m);
    if m - 1 > p.popIndex {
      PopsDown(e.after);
      PopsDownStep(e, PopRun(e.after), p.stack, p.popIndex, m);
    } else {
      assert PopRun(e.after) == [];
      assert TagNames([e]) == [p.stack[p.popIndex]];
    }
  }

  /** One more name in front of the names popped below it. */
  lemma PopsDownStep(e: Emit, run: seq<Emit>, s: seq<JString>, k: nat, m: nat)
    requires k + 1 < m <= |s| && e.after.tagName == s[m - 1]
    requires TagNames(run) == Popped(s[..m - 1], k)
    requires RequiredEntries(s[k + 1..]) == RequiredEntries(s[k + 1..m - 1]) + [s[m - 1]]
    ensures TagNames([e] + run) == Popped(s, k)
  {
    PoppedFront(s, k, m);
    TagNamesFront(e, run);
  }

  /** The parser after one token and then `rest`. */
  lemma FinalCons(p: Parser, e: Emit, rest: seq<Emit>)
    ensures Final(p, [e] + rest) == Final(e.after, rest)
  {
    if |rest| > 0 {
      assert ([e] + rest)[|rest|] == rest[|rest| - 1];
    }
  }

  /** After the popping, the stack is cut at the pop index and nothing else has changed. */
  lemma {:induction false} PopsDownFinal(p: Parser)
    requires p.mode.Popping? && 0 <= p.popIndex < |p.stack|
    ensures Final(p, PopRun(p)) == p.(stack := p.stack[..p.popIndex], tagName := p.stack[p.popIndex], mode := Normal)
    decreases |p.stack|
  {
    var k, s := p.popIndex, p.stack;
    var m := PopTop(p);
    var e := PopTags(p);
    assert PopRun(p) == [e] + PopRun(e.after);
    FinalCons(p, e, PopRun(e.after));
    if m - 1 > k {
      PopsDownFinal(e.after);
      assert s[..m - 1][..k] == s[..k];
    }
  }

  /** One call of `popTags`: the innermost required entry above the pop index, or the entry at it, is taken off. */
  lemma PopTop(q: Parser) returns (m: nat)
    requires 0 <= q.popIndex < |q.stack|
    ensures m == InnermostRequired(q.stack, q.popIndex + 1, |q.stack|) && q.popIndex < m
    ensures PopTags(q).after.stack == q.stack[..m - 1] && PopTags(q).after.tagName == q.stack[m - 1]
    ensures PopTags(q).after.mode == if m - 1 == q.popIndex then Normal else Popping
  {
    m := InnermostRequired(q.stack, q.popIndex + 1, |q.stack|);
  }

  /** `</` then a name from `o + 2` to `e` and `>`. */
  predicate EndTagAt(d: JString, o: nat, e: nat) {
    o + 2 < e < |d| && d[o] == '<' as JChar && d[o + 1] == '/' as JChar && IsAlpha(d[o + 2]) &&
    NameEnd(d, o + 3) == e && d[e] == '>' as JChar
  }

  /** At `</`, `next()` is `parseEndTag`. */
  lemma StepAtEndTag(d: JString, p: Parser)
    requires Valid(d, p) && p.mode.Normal? && p.offset + 1 < |d|
    requires d[p.offset] == '<' as JChar && d[p.offset + 1] == '/' as JChar
    ensures Step(d, p) == EndTagStep(d, p, p.offset + 1)
  {
  }

  /** An end tag whose name matches no open element, ignoring case, is empty text. */
  lemma EndTagUnmatched(d: JString, p: Parser, e: nat)
    requires Valid(d, p) && p.mode.Normal? && EndTagAt(d, p.offset, e)
    requires forall j :: 0 <= j < |p.stack| ==> !EqualsIgnoreCase(d[p.offset + 2..e], p.stack[j])
    ensures Step(d, p) == Emit(Text, p.(offset := e + 1, popIndex := -1, text := []))
  {
    StepAtEndTag(d, p);
  }

  /** An end tag matching the open element at `k`, and none above it, renames it and pops from there. */
  lemma EndTagPops(d: JString, p: Parser, e: nat, k: nat)
    requires Valid(d, p) && p.mode.Normal? && EndTagAt(d, p.offset, e)
    requires k < |p.stack| && EqualsIgnoreCase(d[p.offset + 2..e], p.stack[k])
    requires forall j :: k < j < |p.stack| ==> !EqualsIgnoreCase(d[p.offset + 2..e], p.stack[j])
    ensures Step(d, p) == PopTags(p.(offset := e + 1, popIndex := k, stack := p.stack[k := d[p.offset + 2..e]]))
  {
    StepAtEndTag(d, p);
    assert LastIndexIgnoreCase(p.stack, d[p.offset + 2..e]) == k;
  }

  /**
   * An end tag matching the open element at `k` (the innermost one with that name, ignoring case)
   * gives the end tags of the required elements above it, innermost first, then its own end tag
   * with the name as written in the end tag; the stack is then cut at `k`.
   */
  lemma EndTagMatched(d: JString, p: Parser, e: nat, k: nat)
    requires Valid(d, p) && p.mode.Normal? && EndTagAt(d, p.offset, e)
    requires k < |p.stack| && EqualsIgnoreCase(d[p.offset + 2..e], p.stack[k])
    requires forall j :: k < j < |p.stack| ==> !EqualsIgnoreCase(d[p.offset + 2..e], p.stack[j])
    ensures var r := Step(d, p);
      TagNames([r] + PopRun(r.after)) == Reversed(RequiredEntries(p.stack[k + 1..])) + [d[p.offset + 2..e]]
    ensures var r := Step(d, p);
      Final(r.after, PopRun(r.after)) == p.(offset := e + 1, popIndex := k, stack := p.stack[..k], tagName := d[p.offset + 2..e])
  {
    var name := d[p.offset + 2..e];
    var q := p.(offset := e + 1, popIndex := k, stack := p.stack[k := name]);
    EndTagPops(d, p, e, k);
    PopRunStart(q);
    PopsDown(q.(mode := Popping));
    PopsDownFinal(q.(mode := Popping));
    FinalCons(q.(mode := Popping), PopTags(q), PopRun(PopTags(q).after));
    assert q.stack[k + 1..] == p.stack[k + 1..];
    assert q.stack[..k] == p.stack[..k];
  }

  // ---------------------------------------------------------------- character references

  /** The decimal loop of `parseAmp` reads the digits up to `;` as one number. */
  lemma {:induction false} DecimalRun(d: JString, start: nat, k: nat, e: nat)
    requires start + 3 <= k <= e < |d| && d[e] == ';' as JChar
    requires forall j :: start + 2 <= j < e ==> IsAsciiDigit(d[j])
    ensures DecRef(d, start, k, DecimalValue(d[start + 2..k])) ==
            Piece([(DecimalValue(d[start + 2..e]) % 0x1_0000) as JChar], e + 1)
    decreases e - k
  {
    if k < e {
      assert d[start + 2..k + 1][..k - start - 2] == d[start + 2..k];
      DecimalRun(d, start, k + 1, e);
    }
  }

  /** `&#` digits `;` is the char whose code is the number, cut to 16 bits by the `(char)` cast. */
  lemma DecimalReference(d: JString, i: nat, e: nat)
    requires i + 2 < e < |d| && d[i] == '&' as JChar && d[i + 1] == '#' as JChar && d[e] == ';' as JChar
    requires forall j :: i + 2 <= j < e ==> IsAsciiDigit(d[j])
    ensures AmpAt(d, i) == Piece([(DecimalValue(d[i + 2..e]) % 0x1_0000) as JChar], e + 1)
  {
    assert d[i + 2..i + 3][..0] == [];
    DecimalRun(d, i, i + 3, e);
  }

  /** The hexadecimal loop of `parseAmp` reads the hex digits up to `;` as one number. */
  lemma {:induction false} HexRun(d: JString, start: nat, k: nat, e: nat)
    requires start + 3 <= k <= e < |d| && start + 3 < e && d[e] == ';' as JChar
    requires forall j :: start + 3 <= j < e ==> IsHexDigit(d[j])
    ensures HexRef(d, start, k, HexNumber(d[start + 3..k])) ==
            Piece([(HexNumber(d[start + 3..e]) % 0x1_0000) as JChar], e + 1)
    decreases e - k
  {
    if k < e {
      assert d[start + 3..k + 1][..k - start - 3] == d[start + 3..k];
      HexRun(d, start, k + 1, e);
    }
  }

  /** `&#x` hex digits `;` is the char whose code is the number, cut to 16 bits. */
  lemma HexReference(d: JString, i: nat, e: nat)
    requires i + 3 < e < |d| && d[i] == '&' as JChar && d[i + 1] == '#' as JChar && d[e] == ';' as JChar
    requires d[i + 2] == 'x' as JChar || d[i + 2] == 'X' as JChar
    requires forall j :: i + 3 <= j < e ==> IsHexDigit(d[j])
    ensures AmpAt(d, i) == Piece([(HexNumber(d[i + 3..e]) % 0x1_0000) as JChar], e + 1)
  {
    assert d[i + 3..i + 3] == [];
    HexRun(d, i, i + 3, e);
  }

  /** `&#x;` has no digits: the three chars before `;` are kept as text and the `;` is consumed. */
  lemma EmptyHexReference(d: JString, i: nat)
    requires i + 3 < |d| && d[i] == '&' as JChar && d[i + 1] == '#' as JChar && d[i + 3] == ';' as JChar
    requires d[i + 2] == 'x' as JChar || d[i + 2] == 'X' as JChar
    ensures AmpAt(d, i) == Piece(d[i..i + 3], i + 4)
  {
  }

  /** The named loop of `parseAmp` reads letters and digits up to `;` and looks the name up. */
  lemma {:induction false} NamedRun(d: JString, start: nat, k: nat, e: nat)
    requires start + 2 <= k <= e < |d| && d[e] == ';' as JChar
    requires forall j :: start + 2 <= j < e ==> IsAlphaNumeric(d[j])
    ensures NamedRef(d, start, k) ==
            match DecodeNamedEntity(d[start + 1..e])
            case Some(c) => Piece([c], e + 1)
            case None => Piece(d[start..e], e + 1)
    decreases e - k
  {
    if k < e {
      NamedRun(d, start, k + 1, e);
    }
  }

  /**
   * `&name;` is the char the entity table gives for `name`; an unknown name is kept as text
   * without its `;`, which is consumed.
   */
  lemma NamedReference(d: JString, i: nat, e: nat)
    requires i + 1 < e < |d| && d[i] == '&' as JChar && IsAlpha(d[i + 1]) && d[e] == ';' as JChar
    requires forall j :: i + 2 <= j < e ==> IsAlphaNumeric(d[j])
    ensures DecodeNamedEntity(d[i + 1..e]).Some? ==> AmpAt(d, i) == Piece([DecodeNamedEntity(d[i + 1..e]).value], e + 1)
    ensures DecodeNamedEntity(d[i + 1..e]).None? ==> AmpAt(d, i) == Piece(d[i..e], e + 1)
  {
    NamedRun(d, i, i + 2, e);
  }

  // ---------------------------------------------------------------- unquoted attribute values

  /** As written, an unquoted value whose last char is `&` reads past the end of the input. */
  lemma UnquotedAmpAtEnd(d: JString, k: nat, acc: JString)
    requires k + 1 == |d| && d[k] == '&' as JChar
    ensures UnquotedValueAsWritten(d, k, acc) == Err(IndexOutOfBoundsException)
    ensures UnquotedValue(d, k, acc) == Piece([], |d|)
  {
  }

  /** `<a b=&`: the value starts at the `&`, the last char of the input. */
  lemma UnquotedAmpExample()
    ensures UnquotedValueAsWritten(Lit("<a b=&"), 5, []) == Err(IndexOutOfBoundsException)
  {
    var d := Lit("<a b=&");
    assert |d| == 6 && d[5] == '&' as JChar;
    UnquotedAmpAtEnd(d, 5, []);
  }

  /**
   * Where the value as written does not throw, the corrected value is the same; where it throws,
   * the corrected value is empty and ends the input.
   */
  lemma {:induction false} UnquotedAgrees(d: JString, k: nat, acc: JString)
    requires k < |d|
    ensures UnquotedValueAsWritten(d, k, acc).Ok? ==> UnquotedValueAsWritten(d, k, acc).value == UnquotedValue(d, k, acc)
    ensures UnquotedValueAsWritten(d, k, acc).Err? ==> UnquotedValue(d, k, acc) == Piece([], |d|)
    decreases |d| - k
  {
    if !IsSpace(d[k]) && d[k] != '>' as JChar {
      if d[k] == '&' as JChar {
        var a := AmpAt(d, k);
        if a.next < |d| {
          UnquotedAgrees(d, a.next, acc + a.text);
        }
      } else if k + 1 < |d| {
        UnquotedAgrees(d, k + 1, acc + [d[k]]);
      }
    }
  }
}
