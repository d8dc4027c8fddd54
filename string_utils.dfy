/**
 * `StringUtils`: null-tolerant string helpers.  A null `String` is `None`; a call that would throw on
 * null returns `Err(NullPointerException)`.  Case mapping and character classes are ASCII.
 */
module StringUtils {
  import opened Wrappers
  import opened JStrings

  // ---------------------------------------------------------------- emptiness and small helpers

  /** `isEmpty(str)`: null or of length 0. */
  predicate IsEmpty(str: Option<JString>) {
    str.None? || |str.value| == 0
  }

  /** `isBlank(str)`: null, or empty once trimmed. */
  predicate IsBlank(str: Option<JString>) {
    str.None? || |Trim(str.value)| == 0
  }

  /** Blank means null or made only of chars <= ' '; every empty string is blank, `" "` is blank but not empty. */
  lemma BlankMeaning(str: Option<JString>)
    ensures IsBlank(str) <==> str.None? || forall k :: 0 <= k < |str.value| ==> str.value[k] <= 32
    ensures IsEmpty(str) ==> IsBlank(str)
    ensures IsBlank(Some(Lit(" \t"))) && !IsEmpty(Some(Lit(" ")))
  {
    if str.Some? {
      TrimEmpty(str.value);
    }
    TrimEmpty(Lit(" \t"));
  }

  /** `notNull(str)`: the string, or `""` for null. */
  function NotNull(str: Option<JString>): (r: JString)
    ensures str.Some? ==> r == str.value
    ensures str.None? ==> r == []
  {
    if str.None? then [] else str.value
  }

  /** `length(str)`: the length, 0 for null. */
  function Length(str: Option<JString>): (r: nat)
    ensures r == 0 <==> IsEmpty(str)
  {
    |NotNull(str)|
  }

  /** `equals(str1, str2)`: equal strings or both null. */
  predicate Equals(str1: Option<JString>, str2: Option<JString>) {
    if str1.Some? then str2.Some? && str1.value == str2.value else str2.None?
  }

  /** `equals` is the equality of possibly null strings. */
  lemma EqualsMeaning(a: Option<JString>, b: Option<JString>)
    ensures Equals(a, b) <==> a == b
    ensures Equals(a, b) == Equals(b, a)
  {
  }

  /** `isSpace(character)`: space, tab, line feed, carriage return or form feed. */
  predicate IsSpace(c: JChar) {
    c == 0x20 || c == 0x09 || c == 0x0A || c == 0x0D || c == 0x0C
  }

  /** Every `isSpace` char is blank to `trim`, but not every blank char is a space (`\u000B` is not). */
  lemma SpaceIsBlank(c: JChar)
    ensures IsSpace(c) ==> IsBlank(Some([c]))
    ensures IsBlank(Some([0x0B])) && !IsSpace(0x0B)
  {
    TrimEmpty([c]);
    TrimEmpty([0x0B]);
  }

  /** `trim(obj)` for a string argument: trimmed, with null for null and for a blank string. */
  function TrimToNull(obj: Option<JString>): (r: Option<JString>)
    ensures r.None? <==> IsBlank(obj)
    ensures r.Some? ==> r.value == Trim(obj.value)
  {
    if obj.None? then None
    else
      var str := Trim(obj.value);
      if |str| == 0 then None else Some(str)
  }

  // ---------------------------------------------------------------- typed getters

  /** `true`, `yes`, `y`, `t`, `on`, `1`, as code units. */
  const TRUE_WORDS: set<JString> := {[116, 114, 117, 101], [121, 101, 115], [121], [116], [111, 110], [49]}
  /** `false`, `no`, `n`, `f`, `off`, `0`, as code units. */
  const FALSE_WORDS: set<JString> := {[102, 97, 108, 115, 101], [110, 111], [110], [102], [111, 102, 102], [48]}

  /** `getBoolean(s, defaultBool)`: the lower-cased, trimmed text is looked up in the two word sets. */
  function GetBoolean(s: Option<JString>, defaultBool: bool): bool {
    if !IsBlank(s) then
      var str := Trim(LowerAscii(s.value));
      if str in TRUE_WORDS then true
      else if str in FALSE_WORDS then false
      else defaultBool
    else defaultBool
  }

  /** `getBoolean(str)`: the default is false. */
  function GetBooleanOrFalse(str: Option<JString>): (r: bool)
    ensures r ==> !IsBlank(str)
  {
    GetBoolean(str, false)
  }

  /** The words spelled as in the source. */
  lemma WordCodes()
    ensures TRUE_WORDS == {Lit("true"), Lit("yes"), Lit("y"), Lit("t"), Lit("on"), Lit("1")}
    ensures FALSE_WORDS == {Lit("false"), Lit("no"), Lit("n"), Lit("f"), Lit("off"), Lit("0")}
  {
    assert Lit("true") == [116, 114, 117, 101];
    assert Lit("yes") == [121, 101, 115];
    assert Lit("y") == [121];
    assert Lit("t") == [116];
    assert Lit("on") == [111, 110];
    assert Lit("1") == [49];
    assert Lit("false") == [102, 97, 108, 115, 101];
    assert Lit("no") == [110, 111];
    assert Lit("n") == [110];
    assert Lit("f") == [102];
    assert Lit("off") == [111, 102, 102];
    assert Lit("0") == [48];
  }

  lemma WordSetsDisjoint()
    ensures TRUE_WORDS * FALSE_WORDS == {}
  {
  }

  /** The default decides exactly when the trimmed, lower-cased text is none of the twelve words. */
  lemma GetBooleanDecided(s: Option<JString>)
    ensures GetBoolean(s, true) == GetBoolean(s, false) <==>
      s.Some? && Trim(LowerAscii(s.value)) in TRUE_WORDS + FALSE_WORDS
    ensures IsBlank(s) ==> GetBoolean(s, true) && !GetBoolean(s, false)
  {
    WordSetsDisjoint();
    if s.Some? && IsBlank(s) {
      TrimEmpty(s.value);
      TrimEmpty(LowerAscii(s.value));
      assert Trim(LowerAscii(s.value)) == [];
    }
  }

  lemma LowerOfUpper(s: JString)
    ensures LowerAscii(UpperAscii(s)) == LowerAscii(s)
  {
  }

  /** `getBoolean` ignores case: texts equal up to ASCII case give the same answer. */
  lemma GetBooleanIgnoresCase(a: JString, b: JString, d: bool)
    requires EqualsIgnoreCase(a, b)
    ensures GetBoolean(Some(a), d) == GetBoolean(Some(b), d)
  {
    LowerOfUpper(a);
    LowerOfUpper(b);
    assert LowerAscii(a) == LowerAscii(b) by {
      assert LowerAscii(UpperAscii(a)) == LowerAscii(UpperAscii(b));
    }
    TrimEmpty(a);
    TrimEmpty(b);
    assert (forall k :: 0 <= k < |a| ==> a[k] <= 32) <==> (forall k :: 0 <= k < |b| ==> b[k] <= 32) by {
      assert forall k :: 0 <= k < |a| ==> (a[k] <= 32 <==> UpperAscii(a)[k] <= 32);
      assert forall k :: 0 <= k < |b| ==> (b[k] <= 32 <==> UpperAscii(b)[k] <= 32);
    }
  }

  /** Surrounding blanks and case do not matter: `" Yes "` is true. */
  lemma GetBooleanTrimsAndLowers()
    ensures GetBoolean(Some([32, 89, 101, 115, 32]), false)
  {
    var t: JString := [32, 121, 101, 115, 32];
    assert LowerAscii([32, 89, 101, 115, 32]) == t;
    assert Trim(t) == [121, 101, 115] by {
      assert BlanksFrom(t, 1) == 1;
      assert LeadingBlanks(t) == 1;
      assert TrimEnd(t, 1, 4) == 4;
      assert TrimEnd(t, 1, 5) == 4;
    }
  }

  /** `"OFF"` is false whatever the default. */
  lemma GetBooleanOff()
    ensures !GetBoolean(Some([79, 70, 70]), true)
  {
    assert LowerAscii([79, 70, 70]) == [111, 102, 102];
    assert Trim([111, 102, 102]) == [111, 102, 102] by {
      assert LeadingBlanks([111, 102, 102]) == 0;
    }
  }

  /** A word outside both lists, such as `"maybe"`, gives the default. */
  lemma GetBooleanOtherWord(d: bool)
    ensures GetBoolean(Some([109, 97, 121, 98, 101]), d) == d
  {
    assert LowerAscii([109, 97, 121, 98, 101]) == [109, 97, 121, 98, 101];
    assert Trim([109, 97, 121, 98, 101]) == [109, 97, 121, 98, 101] by {
      assert LeadingBlanks([109, 97, 121, 98, 101]) == 0;
    }
  }

  /** `getInteger(str, defaultValue)`: the untrimmed text through `Integer.parseInt`, else the default. */
  function GetInteger(str: Option<JString>, defaultValue: int): (r: int)
    ensures !IsBlank(str) && ParseInt(str.value).Some? ==> r == ParseInt(str.value).value
    ensures IsBlank(str) || ParseInt(str.value).None? ==> r == defaultValue
  {
    if IsBlank(str) then defaultValue else ParseInt(str.value).GetOr(defaultValue)
  }

  /** `getLong(str, defaultValue)`: the untrimmed text through `Long.parseLong`, else the default. */
  function GetLong(str: Option<JString>, defaultValue: int): (r: int)
    ensures !IsBlank(str) && ParseLong(str.value).Some? ==> r == ParseLong(str.value).value
    ensures IsBlank(str) || ParseLong(str.value).None? ==> r == defaultValue
  {
    if IsBlank(str) then defaultValue else ParseLong(str.value).GetOr(defaultValue)
  }

  /** A number printed by `toString` reads back; out of range or padded text gives the default. */
  lemma GetIntegerReadsBack(n: int, d: int)
    ensures GetInteger(Some(SignedDecimalString(n)), d) == if INT_MIN <= n <= INT_MAX then n else d
    ensures GetLong(Some(SignedDecimalString(n)), d) == if LONG_MIN <= n <= LONG_MAX then n else d
    ensures GetInteger(Some(Lit(" 12")), d) == d
  {
    var s := SignedDecimalString(n);
    ParseOfSignedDecimalString(n, INT_MIN, INT_MAX);
    ParseOfSignedDecimalString(n, LONG_MIN, LONG_MAX);
    assert s[0] > 32;
    TrimEmpty(s);
    TrimEmpty(Lit(" 12"));
    assert !AllDigits(Lit(" 12")) by { assert !IsAsciiDigit(Lit(" 12")[0]); }
  }

  // ---------------------------------------------------------------- line feeds

  const LF: JChar := 0x0A

  /** `removeCRLFFromString(url)`: everything from the first `\n` on is cut; `\r` stays. */
  function RemoveCRLF(url: Option<JString>): (r: Result<JString, Exception>)
    ensures url.None? <==> r == Err(NullPointerException)
    ensures r.Ok? ==> LF !in r.value && StartsWith(url.value, r.value)
    ensures r.Ok? && LF !in url.value ==> r.value == url.value
    ensures r.Ok? && LF in url.value ==> url.value[|r.value|] == LF
  {
    match url
    case None => Err(NullPointerException)
    case Some(u) =>
      var index := IndexOfChar(u, LF);
      if index > -1 then Ok(u[..index]) else Ok(u)
  }

  /** Cutting twice cuts nothing more, and a `\r` before the `\n` is kept. */
  lemma RemoveCRLFIdempotent(url: JString)
    ensures RemoveCRLF(Some(RemoveCRLF(Some(url)).value)) == RemoveCRLF(Some(url))
    ensures RemoveCRLF(Some([0x61, 0x0D, 0x0A, 0x62])) == Ok([0x61, 0x0D])
  {
    assert IndexOfChar([0x61, 0x0D, 0x0A, 0x62], LF) == 2 by {
      var s: JString := [0x61, 0x0D, 0x0A, 0x62];
      assert s[1..][1..] == [0x0A, 0x62];
    }
    var u: JString := [0x61, 0x0D, 0x0A, 0x62];
    assert u[..2] == [0x61, 0x0D];
  }

  // ---------------------------------------------------------------- replace

  /**
   * The text `replace` builds from index `from` on, with `m` the remaining count as the source
   * keeps it (`--m == 0` ends the replacing; a negative count never reaches 0).
   */
  function ReplaceFrom(text: JString, repl: JString, with: JString, from: nat, m: int): JString
    requires |repl| > 0 && from <= |text|
    decreases |text| - from, 1
  {
    var k := IndexOfFrom(text, repl, from);
    if k == -1 then text[from..] else ReplaceFound(text, repl, with, from, k, m)
  }

  /** One round with `repl` found at `k`: the text before it, `with`, then the rest of the rounds. */
  function ReplaceFound(text: JString, repl: JString, with: JString, from: nat, k: nat, m: int): JString
    requires |repl| > 0 && from <= k && k + |repl| <= |text|
    decreases |text| - from, 0
  {
    text[from..k] + with + (if m - 1 == 0 then text[k + |repl|..] else ReplaceFrom(text, repl, with, k + |repl|, m - 1))
  }

  /** What `replace(text, repl, with, max)` returns. */
  function Replaced(text: Option<JString>, repl: Option<JString>, with: Option<JString>, max: int): Option<JString> {
    if text.None? || IsEmpty(repl) || with.None? || max == 0 then text
    else Some(ReplaceFrom(text.value, repl.value, with.value, 0, max))
  }

  /** One round of the loop: the text before the occurrence, then `with`, then the rest. */
  lemma ReplaceStep(out: JString, text: JString, repl: JString, with: JString, from: nat, m: int)
    requires |repl| > 0 && from <= |text| && IndexOfFrom(text, repl, from) != -1
    ensures var k := IndexOfFrom(text, repl, from);
      k + |repl| <= |text| &&
      out + ReplaceFrom(text, repl, with, from, m) ==
      (out + text[from..k] + with) + (if m - 1 == 0 then text[k + |repl|..] else ReplaceFrom(text, repl, with, k + |repl|, m - 1))
  {
    var k := IndexOfFrom(text, repl, from);
    var rest := if m - 1 == 0 then text[k + |repl|..] else ReplaceFrom(text, repl, with, k + |repl|, m - 1);
    assert ReplaceFrom(text, repl, with, from, m) == ReplaceFound(text, repl, with, from, k, m);
    assert ReplaceFound(text, repl, with, from, k, m) == text[from..k] + with + rest;
    PrefixRegroup(out, ReplaceFrom(text, repl, with, from, m), text[from..k], with, rest);
  }

  /** `out + (p + w + r)`, regrouped as `(out + p + w) + r`. */
  lemma PrefixRegroup(out: JString, x: JString, p: JString, w: JString, r: JString)
    requires x == p + w + r
    ensures out + x == (out + p + w) + r
  {
  }

  /** What is still to be appended, after `out`, to reach the text `replace` returns. */
  predicate Pending(goal: JString, out: JString, text: JString, repl: JString, with: JString, from: nat, m: int)
    requires |repl| > 0 && from <= |text|
  {
    out + ReplaceFrom(text, repl, with, from, m) == goal
  }

  lemma ReplaceAdvance(goal: JString, out: JString, text: JString, repl: JString, with: JString, from: nat, m: int)
    requires |repl| > 0 && from <= |text| && Pending(goal, out, text, repl, with, from, m)
    requires IndexOfFrom(text, repl, from) != -1
    ensures var k := IndexOfFrom(text, repl, from);
      var out' := out + text[from..k] + with;
      k + |repl| <= |text| &&
      (m - 1 == 0 ==> out' + text[k + |repl|..] == goal) &&
      (m - 1 != 0 ==> Pending(goal, out', text, repl, with, k + |repl|, m - 1))
  {
    ReplaceStep(out, text, repl, with, from, m);
  }

  /** `replace(text, repl, with, max)`: the loop of `indexOf` calls and appends. */
  method Replace(text: Option<JString>, repl: Option<JString>, with: Option<JString>, max: int) returns (r: Option<JString>)
    ensures r == Replaced(text, repl, with, max)
  {
    var m := max;
    if text.None? || IsEmpty(repl) || with.None? || m == 0 {
      return text;
    }
    var t, rp, w := text.value, repl.value, with.value;
    ghost var goal := ReplaceFrom(t, rp, w, 0, max);
    var outBuffer: JString := [];
    var started := false;
    var lastIdx: nat := 0;
    var nextIdx := IndexOfFrom(t, rp, 0);
    var done := false;
    while nextIdx != -1 && !done
      invariant lastIdx <= |t|
      invariant !done ==> nextIdx == IndexOfFrom(t, rp, lastIdx) && m != 0
      invariant !done ==> Pending(goal, outBuffer, t, rp, w, lastIdx, m)
      invariant done ==> outBuffer + t[lastIdx..] == goal
      invariant !started ==> lastIdx == 0 && outBuffer == []
      decreases |t| - lastIdx, !done
    {
      started := true;
      ReplaceAdvance(goal, outBuffer, t, rp, w, lastIdx, m);
      outBuffer := outBuffer + t[lastIdx..nextIdx] + w;
      lastIdx := nextIdx + |rp|;
      m := m - 1;
      if m == 0 {
        done := true;
      } else {
        nextIdx := IndexOfFrom(t, rp, lastIdx);
      }
    }
    if !started {
      assert goal == t[0..] == t;
      return text;
    }
    assert !done ==> ReplaceFrom(t, rp, w, lastIdx, m) == t[lastIdx..];
    r := Some(outBuffer + t[lastIdx..]);
  }

  /** Replacing a string by itself changes nothing. */
  lemma {:induction false} ReplaceBySelf(text: JString, repl: JString, from: nat, m: int)
    requires |repl| > 0 && from <= |text|
    ensures ReplaceFrom(text, repl, repl, from, m) == text[from..]
    decreases |text| - from, 1
  {
    var k := IndexOfFrom(text, repl, from);
    if k != -1 {
      ReplaceFoundBySelf(text, repl, from, k, m);
    }
  }

  /** `ReplaceBySelf` for one round, with the occurrence found at `k`. */
  lemma {:induction false} ReplaceFoundBySelf(text: JString, repl: JString, from: nat, k: nat, m: int)
    requires |repl| > 0 && from <= k && OccursAt(text, repl, k)
    ensures ReplaceFound(text, repl, repl, from, k, m) == text[from..]
    decreases |text| - from, 0
  {
    var next := k + |repl|;
    var tail := if m - 1 == 0 then text[next..] else ReplaceFrom(text, repl, repl, next, m - 1);
    if m - 1 != 0 {
      ReplaceBySelf(text, repl, next, m - 1);
    }
    RejoinOccurrence(text, repl, from, k, ReplaceFound(text, repl, repl, from, k, m), tail);
  }

  /** An occurrence of `t` at `k` put back between what precedes it and the unchanged rest. */
  lemma RejoinOccurrence(s: JString, t: JString, from: nat, k: int, x: JString, tail: JString)
    requires from <= k && OccursAt(s, t, k)
    requires x == s[from..k] + t + tail && tail == s[k + |t|..]
    ensures x == s[from..]
  {
    SplitAtOccurrence(s, t, from, k);
  }

  /** Text without an occurrence comes back unchanged, whatever the count. */
  lemma ReplaceAbsent(text: JString, repl: JString, with: JString, max: int)
    requires |repl| > 0 && forall i :: !OccursAt(text, repl, i)
    ensures Replaced(Some(text), Some(repl), Some(with), max) == Some(text)
  {
  }

  /** `text.replaceAll(target, with)` for a literal target: every occurrence, left to right. */
  function ReplaceAll(text: JString, target: JString, with: JString): JString
    requires |target| > 0
  {
    ReplaceFrom(text, target, with, 0, -1)
  }

  /**
   * `replaceAll` read as a left-to-right scan: at each position either the target starts there and
   * is replaced, or one char is copied.
   */
  function ReplaceScan(text: JString, target: JString, with: JString): JString
    requires |target| > 0
    decreases |text|
  {
    if |text| == 0 then []
    else if StartsWith(text, target) then with + ReplaceScan(text[|target|..], target, with)
    else [text[0]] + ReplaceScan(text[1..], target, with)
  }

  /** A stretch in which the target starts nowhere is copied as it is. */
  lemma {:induction false} ScanCopiesStretch(text: JString, target: JString, with: JString, from: nat, to: nat)
    requires |target| > 0 && from <= to <= |text|
    requires forall i :: from <= i < to ==> !OccursAt(text, target, i)
    ensures ReplaceScan(text[from..], target, with) == text[from..to] + ReplaceScan(text[to..], target, with)
    decreases |text| - from
  {
    if from < to {
      var u := text[from..];
      assert !OccursAt(text, target, from);
      assert !StartsWith(u, target) by {
        if |target| <= |u| {
          assert u[..|target|] == text[from..from + |target|];
        }
      }
      assert u[1..] == text[from + 1..];
      ScanCopiesStretch(text, target, with, from + 1, to);
      assert text[from..to] == [u[0]] + text[from + 1..to];
    }
  }

  lemma {:induction false} ReplaceFromIsScan(text: JString, target: JString, with: JString, from: nat, m: int)
    requires |target| > 0 && from <= |text| && m < 0
    ensures ReplaceFrom(text, target, with, from, m) == ReplaceScan(text[from..], target, with)
    decreases |text| - from
  {
    var k := IndexOfFrom(text, target, from);
    if k == -1 {
      ScanWithoutOccurrence(text, target, with, from, m);
    } else {
      ReplaceFromIsScan(text, target, with, k + |target|, m - 1);
      ScanPastOccurrence(text, target, with, from, m);
    }
  }

  lemma {:induction false} ScanWithoutOccurrence(text: JString, target: JString, with: JString, from: nat, m: int)
    requires |target| > 0 && from <= |text| && IndexOfFrom(text, target, from) == -1
    ensures ReplaceFrom(text, target, with, from, m) == ReplaceScan(text[from..], target, with)
  {
    IndexOfFromIsFirst(text, target, from);
    ScanCopiesStretch(text, target, with, from, |text|);
    assert text[|text|..] == [];
  }

  lemma {:induction false} ScanPastOccurrence(text: JString, target: JString, with: JString, from: nat, m: int)
    requires |target| > 0 && from <= |text| && m < 0
    requires IndexOfFrom(text, target, from) != -1
    requires var k := IndexOfFrom(text, target, from);
      ReplaceFrom(text, target, with, k + |target|, m - 1) == ReplaceScan(text[k + |target|..], target, with)
    ensures ReplaceFrom(text, target, with, from, m) == ReplaceScan(text[from..], target, with)
  {
    var k := IndexOfFrom(text, target, from);
    var head := text[from..k];
    var tail := ReplaceScan(text[k + |target|..], target, with);
    ReplaceStep([], text, target, with, from, m);
    assert [] + ReplaceFrom(text, target, with, from, m) == ReplaceFrom(text, target, with, from, m);
    assert [] + head + with == head + with;
    assert m - 1 != 0;
    assert ReplaceFrom(text, target, with, from, m) == (head + with) + tail;
    IndexOfFromIsFirst(text, target, from);
    ScanCopiesStretch(text, target, with, from, k);
    ScanAtOccurrence(text, target, with, k);
    assert ReplaceScan(text[from..], target, with) == head + (with + tail);
    AppendAssoc(head, with, tail);
  }

  lemma AppendAssoc(a: JString, b: JString, c: JString)
    ensures (a + b) + c == a + (b + c)
  {
  }

  lemma {:induction false} ScanAtOccurrence(text: JString, target: JString, with: JString, k: nat)
    requires |target| > 0 && OccursAt(text, target, k)
    ensures ReplaceScan(text[k..], target, with) == with + ReplaceScan(text[k + |target|..], target, with)
  {
    var u := text[k..];
    assert u[..|target|] == text[k..k + |target|];
    assert u[|target|..] == text[k + |target|..];
  }

  /** `replaceAll` and the scan agree on every text. */
  lemma ReplaceAllIsScan(text: JString, target: JString, with: JString)
    requires |target| > 0
    ensures ReplaceAll(text, target, with) == ReplaceScan(text, target, with)
  {
    ReplaceFromIsScan(text, target, with, 0, -1);
    assert text[0..] == text;
  }

  /** Text without the target is left as it is. */
  lemma ReplaceAllAbsent(text: JString, target: JString, with: JString)
    requires |target| > 0 && forall i :: !OccursAt(text, target, i)
    ensures ReplaceAll(text, target, with) == text
  {
    ReplaceAbsent(text, target, with, -1);
  }

  /** A target holding a char the text lacks does not occur in it. */
  lemma NoCharNoOccurrence(text: JString, target: JString, c: JChar)
    requires c !in text && c in target
    ensures forall i :: !OccursAt(text, target, i)
  {
    var k :| 0 <= k < |target| && target[k] == c;
    forall i ensures !OccursAt(text, target, i) {
      if 0 <= i && i + |target| <= |text| {
        assert text[i..i + |target|][k] == text[i + k];
      }
    }
  }

  /** A count of 1 replaces only the first occurrence. */
  lemma ReplaceFirst(text: JString, repl: JString, with: JString)
    requires |repl| > 0 && IndexOf(text, repl) != -1
    ensures var k := IndexOf(text, repl);
      Replaced(Some(text), Some(repl), Some(with), 1) == Some(text[..k] + with + text[k + |repl|..])
  {
    var k := IndexOf(text, repl);
    assert ReplaceFrom(text, repl, with, 0, 1) == ReplaceFound(text, repl, with, 0, k, 1);
    assert text[0..k] == text[..k];
  }

  /** A negative count and a count beyond the number of possible occurrences both mean "all". */
  lemma {:induction false} ReplaceUnlimited(text: JString, repl: JString, with: JString, from: nat, m1: int, m2: int)
    requires |repl| > 0 && from <= |text|
    requires m1 < 0 || m1 > |text| - from
    requires m2 < 0 || m2 > |text| - from
    ensures ReplaceFrom(text, repl, with, from, m1) == ReplaceFrom(text, repl, with, from, m2)
    decreases |text| - from
  {
    var k := IndexOfFrom(text, repl, from);
    if k != -1 {
      var next := k + |repl|;
      assert next <= |text| && next >= from + 1;
      assert m1 - 1 != 0 && m2 - 1 != 0;
      ReplaceUnlimited(text, repl, with, next, m1 - 1, m2 - 1);
      var head := text[from..k] + with;
      assert ReplaceFrom(text, repl, with, from, m1) == ReplaceFound(text, repl, with, from, k, m1);
      assert ReplaceFrom(text, repl, with, from, m2) == ReplaceFound(text, repl, with, from, k, m2);
      SamePrefixSameText(ReplaceFrom(text, repl, with, from, m1), ReplaceFrom(text, repl, with, from, m2),
        head, ReplaceFrom(text, repl, with, next, m1 - 1), ReplaceFrom(text, repl, with, next, m2 - 1));
    }
  }

  /** Two texts made of the same front and equal rests are equal. */
  lemma SamePrefixSameText(x1: JString, x2: JString, head: JString, r1: JString, r2: JString)
    requires x1 == head + r1 && x2 == head + r2 && r1 == r2
    ensures x1 == x2
  {
  }

  /** Where `"a"` occurs in `"abaa"`. */
  lemma AbaaOccurrences()
    ensures var abaa: JString := [97, 98, 97, 97];
      IndexOfFrom(abaa, [97], 0) == 0 && IndexOfFrom(abaa, [97], 1) == 2 &&
      IndexOfFrom(abaa, [97], 3) == 3 && IndexOfFrom(abaa, [97], 4) == -1
  {
    var abaa: JString := [97, 98, 97, 97];
    var a: JString := [97];
    assert abaa[0..1] == a && abaa[1..2] == [98] && abaa[2..3] == a && abaa[3..4] == a;
    assert IndexOfFrom(abaa, a, 2) == 2;
  }

  /** The documented examples with a count: `replace("abaa", "a", "z", n)` for n = 1, 2. */
  lemma ReplaceCountExamples()
    ensures var abaa: JString := [97, 98, 97, 97];
      Replaced(Some(abaa), Some([97]), Some([122]), 1) == Some([122, 98, 97, 97]) &&
      Replaced(Some(abaa), Some([97]), Some([122]), 2) == Some([122, 98, 122, 97])
  {
    var abaa: JString := [97, 98, 97, 97];
    var a, z: JString := [97], [122];
    AbaaOccurrences();
    assert abaa[0..0] == [] && abaa[1..2] == [98] && abaa[1..] == [98, 97, 97] && abaa[3..] == [97];
    assert ReplaceFrom(abaa, a, z, 0, 1) == [122, 98, 97, 97];
    assert ReplaceFrom(abaa, a, z, 1, 1) == [98, 122, 97];
    assert ReplaceFrom(abaa, a, z, 0, 2) == [122, 98, 122, 97];
  }

  /** Without a limit every `"a"` of `"abaa"` is replaced, whatever the replacement `w`. */
  lemma ReplaceAllAbaa(w: JString)
    ensures Replaced(Some([97, 98, 97, 97]), Some([97]), Some(w), -1) == Some(w + [98] + w + w)
  {
    var abaa: JString := [97, 98, 97, 97];
    var a: JString := [97];
    AbaaOccurrences();
    assert abaa[0..0] == [];
    ReplaceStep([], abaa, a, w, 0, -1);
    ReplaceAbaaFromOne(w);
    FirstRoundRejoin(ReplaceFrom(abaa, a, w, 0, -1), w, ReplaceFrom(abaa, a, w, 1, -2));
  }

  /** The first round on `"abaa"` regrouped: `w`, then what the last two rounds give. */
  lemma FirstRoundRejoin(x: JString, w: JString, y: JString)
    requires [] + x == ([] + [] + w) + y && y == [98] + w + w
    ensures x == w + [98] + w + w
  {
    assert [] + x == x && [] + [] + w == w;
    assert w + ([98] + w + w) == w + [98] + w + w;
  }

  /** The last two rounds on `"abaa"`: from index 1 the result is `"b"` and two replacements. */
  lemma ReplaceAbaaFromOne(w: JString)
    ensures ReplaceFrom([97, 98, 97, 97], [97], w, 1, -2) == [98] + w + w
  {
    var abaa: JString := [97, 98, 97, 97];
    var a: JString := [97];
    AbaaOccurrences();
    assert abaa[3..3] == [] && abaa[4..] == [] && abaa[1..2] == [98];
    assert ReplaceFrom(abaa, a, w, 4, -4) == [];
    ReplaceStep([], abaa, a, w, 3, -3);
    ReplaceStep([], abaa, a, w, 1, -2);
    LastRoundsRejoin(ReplaceFrom(abaa, a, w, 1, -2), ReplaceFrom(abaa, a, w, 3, -3), ReplaceFrom(abaa, a, w, 4, -4), w);
  }

  /** The last two rounds on `"abaa"` regrouped: `"b"`, `w`, then `w` and nothing after it. */
  lemma LastRoundsRejoin(y1: JString, y3: JString, y4: JString, w: JString)
    requires y4 == [] && [] + y3 == ([] + [] + w) + y4 && [] + y1 == ([] + [98] + w) + y3
    ensures y1 == [98] + w + w
  {
    assert [] + y3 == y3 && [] + [] + w == w && w + y4 == w;
    assert [] + y1 == y1 && [] + [98] + w == [98] + w;
  }

  /** The documented examples without a limit: `"zbzz"`, and `"b"` for an empty replacement. */
  lemma ReplaceAllExamples()
    ensures Replaced(Some([97, 98, 97, 97]), Some([97]), Some([122]), -1) == Some([122, 98, 122, 122])
    ensures Replaced(Some([97, 98, 97, 97]), Some([97]), Some([]), -1) == Some([98])
  {
    ReplaceAllAbaa([122]);
    assert [122] + [98] + [122] + [122] == [122, 98, 122, 122];
    ReplaceAllAbaa([]);
    assert [] + [98] + [] + [] == [98];
  }

  /** The documented no-op cases: a null replacement, a count of 0, a null text. */
  lemma ReplaceNoOpExamples(text: Option<JString>, repl: Option<JString>, with: Option<JString>, max: int)
    ensures Replaced(text, repl, None, max) == text
    ensures Replaced(text, repl, with, 0) == text
    ensures Replaced(None, repl, with, max) == None
    ensures Replaced(text, Some([]), with, max) == text
  {
  }

  // ---------------------------------------------------------------- replaceChars

  /** `replaceChars(str, searchChar, replaceChar)`: `String.replace(char, char)` on every char. */
  function ReplaceChar(str: Option<JString>, searchChar: JChar, replaceChar: JChar): (r: Option<JString>)
    ensures r.None? <==> str.None?
    ensures r.Some? ==> (|r.value| == |str.value| &&
      forall i :: 0 <= i < |str.value| ==> r.value[i] == if str.value[i] == searchChar then replaceChar else str.value[i])
  {
    match str
    case None => None
    case Some(s) => Some(seq(|s|, i requires 0 <= i < |s| => if s[i] == searchChar then replaceChar else s[i]))
  }

  /** After replacing `c` by a different char, no `c` is left; replacing back restores text that had no `d`. */
  lemma ReplaceCharBack(s: JString, c: JChar, d: JChar)
    requires c != d && d !in s
    ensures c !in ReplaceChar(Some(s), c, d).value
    ensures ReplaceChar(ReplaceChar(Some(s), c, d), d, c) == Some(s)
  {
    var r := ReplaceChar(Some(s), c, d).value;
    assert ReplaceChar(Some(r), d, c).value == s;
  }

  /** What one char becomes in `replaceChars(str, searchChars, replChars)`. */
  function MapChar(ch: JChar, search: JString, repl: JString): (r: JString)
    ensures |r| <= 1
    ensures ch !in search ==> r == [ch]
    ensures ch in search ==> ((IndexOfChar(search, ch) < |repl| ==> r == [repl[IndexOfChar(search, ch)]]) &&
      (IndexOfChar(search, ch) >= |repl| ==> r == []))
  {
    var index := IndexOfChar(search, ch);
    if index >= 0 then (if index < |repl| then [repl[index]] else []) else [ch]
  }

  /** The text the loop of `replaceChars` builds. */
  function CharsReplaced(s: JString, search: JString, repl: JString): JString {
    if |s| == 0 then [] else CharsReplaced(s[..|s| - 1], search, repl) + MapChar(s[|s| - 1], search, repl)
  }

  /** What `replaceChars(str, searchChars, replaceChars)` returns; a null replacement set deletes. */
  function CharsReplacedOrSame(str: Option<JString>, searchChars: Option<JString>, replaceChars: Option<JString>): Option<JString> {
    if IsEmpty(str) || IsEmpty(searchChars) then str
    else Some(CharsReplaced(str.value, searchChars.value, NotNull(replaceChars)))
  }

  /** Text with none of the search chars maps to itself. */
  lemma {:induction false} CharsReplacedUntouched(s: JString, search: JString, repl: JString)
    requires forall i :: 0 <= i < |s| ==> s[i] !in search
    ensures CharsReplaced(s, search, repl) == s
  {
    if |s| > 0 {
      var init, last := s[..|s| - 1], s[|s| - 1];
      CharsReplacedUntouched(init, search, repl);
      assert MapChar(last, search, repl) == [last];
      assert s == init + [last];
    }
  }

  /** `replaceChars(str, searchChars, replaceChars)`: one pass, appending the image of each char. */
  method ReplaceChars(str: Option<JString>, searchChars: Option<JString>, replaceChars: Option<JString>) returns (r: Option<JString>)
    ensures r == CharsReplacedOrSame(str, searchChars, replaceChars)
  {
    if IsEmpty(str) || IsEmpty(searchChars) {
      return str;
    }
    var replChars := NotNull(replaceChars);
    var s, search := str.value, searchChars.value;
    var modified := false;
    var buf: JString := [];
    var i := 0;
    while i < |s|
      invariant 0 <= i <= |s|
      invariant buf == CharsReplaced(s[..i], search, replChars)
      invariant !modified ==> forall k :: 0 <= k < i ==> s[k] !in search
    {
      var ch := s[i];
      var index := IndexOfChar(search, ch);
      if index >= 0 {
        modified := true;
        if index < |replChars| {
          buf := buf + [replChars[index]];
        }
      } else {
        buf := buf + [ch];
      }
      assert s[..i + 1][..i] == s[..i];
      i := i + 1;
    }
    assert s[..i] == s;
    if modified {
      return Some(buf);
    }
    CharsReplacedUntouched(s, search, replChars);
    r := str;
  }

  lemma {:induction false} CharsReplacedAppend(x: JString, y: JString, search: JString, repl: JString)
    ensures CharsReplaced(x + y, search, repl) == CharsReplaced(x, search, repl) + CharsReplaced(y, search, repl)
    decreases |y|
  {
    if |y| > 0 {
      assert (x + y)[..|x + y| - 1] == x + y[..|y| - 1];
      CharsReplacedAppend(x, y[..|y| - 1], search, repl);
    } else {
      assert x + y == x;
    }
  }

  /** Distinct chars, each appearing either nowhere or at one position. */
  predicate Distinct(s: JString) {
    forall i, j :: 0 <= i < j < |s| ==> s[i] != s[j]
  }

  lemma DistinctIndex(s: JString, i: nat)
    requires Distinct(s) && i < |s|
    ensures IndexOfChar(s, s[i]) == i
  {
  }

  lemma MapCharBack(ch: JChar, a: JString, b: JString)
    requires |a| == |b| && Distinct(a) && Distinct(b) && (ch !in b || ch in a)
    ensures CharsReplaced(MapChar(ch, a, b), b, a) == [ch]
  {
    var m := MapChar(ch, a, b);
    assert |m| == 1;
    assert m[..0] == [];
    if ch in a {
      var i := IndexOfChar(a, ch);
      DistinctIndex(b, i);
      assert m == [b[i]];
    }
  }

  /**
   * With search and replacement sets of the same length, each of distinct chars, and text using
   * none of the replacement chars outside the search set, replacing back restores the text.
   */
  lemma {:induction false} CharsReplacedBack(s: JString, a: JString, b: JString)
    requires |a| == |b| && Distinct(a) && Distinct(b)
    requires forall i :: 0 <= i < |s| ==> s[i] !in b || s[i] in a
    ensures CharsReplaced(CharsReplaced(s, a, b), b, a) == s
  {
    if |s| > 0 {
      var init, ch := s[..|s| - 1], s[|s| - 1];
      assert forall i :: 0 <= i < |init| ==> init[i] == s[i];
      CharsReplacedBack(init, a, b);
      var m := MapChar(ch, a, b);
      var x := CharsReplaced(init, a, b);
      CharsReplacedAppend(x, m, b, a);
      MapCharBack(ch, a, b);
      SnocRejoin(s, CharsReplaced(x + m, b, a));
    }
  }

  /** A text equal to the front of `s` followed by its last char is `s`. */
  lemma SnocRejoin(s: JString, x: JString)
    requires |s| > 0 && x == s[..|s| - 1] + [s[|s| - 1]]
    ensures x == s
  {
  }

  /** One more char of `s` appends its image. */
  lemma CharsReplacedPrefix(s: JString, k: nat, search: JString, repl: JString)
    requires k < |s|
    ensures CharsReplaced(s[..k + 1], search, repl) == CharsReplaced(s[..k], search, repl) + MapChar(s[k], search, repl)
  {
    assert s[..k + 1][..k] == s[..k];
  }

  /** A five-char text maps char by char. */
  lemma CharsReplacedFive(s: JString, search: JString, repl: JString)
    requires |s| == 5
    ensures CharsReplaced(s, search, repl) ==
      MapChar(s[0], search, repl) + MapChar(s[1], search, repl) + MapChar(s[2], search, repl) +
      MapChar(s[3], search, repl) + MapChar(s[4], search, repl)
  {
    assert s[..0] == [];
    CharsReplacedPrefix(s, 0, search, repl);
    CharsReplacedPrefix(s, 1, search, repl);
    CharsReplacedPrefix(s, 2, search, repl);
    CharsReplacedPrefix(s, 3, search, repl);
    CharsReplacedPrefix(s, 4, search, repl);
    assert s[..5] == s;
  }

  /** The documented `replaceChars("hello", "ho", "jy")` is `"jelly"`. */
  lemma ReplaceCharsJelly()
    ensures CharsReplaced([104, 101, 108, 108, 111], [104, 111], [106, 121]) == [106, 101, 108, 108, 121]
  {
    var ho, jy: JString := [104, 111], [106, 121];
    CharsReplacedFive([104, 101, 108, 108, 111], ho, jy);
    assert IndexOfChar(ho, 104) == 0 && IndexOfChar(ho, 111) == 1;
    assert 101 !in ho && 108 !in ho;
  }

  /** The documented `replaceChars("abcba", "bc", "y")` is `"ayya"`: the `c`, past the end of `"y"`, is deleted. */
  lemma ReplaceCharsDeletes()
    ensures CharsReplaced([97, 98, 99, 98, 97], [98, 99], [121]) == [97, 121, 121, 97]
  {
    var bc, y: JString := [98, 99], [121];
    CharsReplacedFive([97, 98, 99, 98, 97], bc, y);
    assert IndexOfChar(bc, 98) == 0 && IndexOfChar(bc, 99) == 1;
    assert 97 !in bc;
  }

  // ---------------------------------------------------------------- join

  /** `StringBuilder.append(String)` writes `"null"` for a null string. */
  function Appended(str: Option<JString>): JString {
    if str.None? then Lit("null") else str.value
  }

  /** `join(strs, separator)`: the elements with the separator only between neighbours; a null array throws. */
  method Join(strs: Option<seq<Option<JString>>>, separator: Option<JString>) returns (r: Result<JString, Exception>)
    ensures strs.None? ==> r == Err(NullPointerException)
    ensures strs.Some? ==> r == Ok(JoinWith(seq(|strs.value|, i requires 0 <= i < |strs.value| => Appended(strs.value[i])), Appended(separator)))
  {
    if strs.None? {
      return Err(NullPointerException);
    }
    var items := strs.value;
    var parts := seq(|items|, i requires 0 <= i < |items| => Appended(items[i]));
    var sep := Appended(separator);
    var sb: JString := [];
    var i := 0;
    while i < |items|
      invariant 0 <= i <= |items|
      invariant 0 < i < |items| ==> sb == JoinWith(parts[..i], sep) + sep
      invariant i == 0 || i == |items| ==> sb == JoinWith(parts[..i], sep)
    {
      assert parts[..i + 1][..i] == parts[..i];
      sb := sb + Appended(items[i]);
      if i + 1 < |items| {
        sb := sb + sep;
      }
      i := i + 1;
    }
    assert parts[..i] == parts;
    r := Ok(sb);
  }

  /** Joining nothing gives `""` and one element gives it alone; pieces free of a separator char split back. */
  lemma JoinMeaning(parts: seq<JString>, c: JChar)
    ensures JoinWith([], [c]) == [] && (|parts| == 1 ==> JoinWith(parts, [c]) == parts[0])
    ensures |parts| > 0 && (forall i :: 0 <= i < |parts| ==> c !in parts[i]) ==> Fields(JoinWith(parts, [c]), c) == parts
  {
    if |parts| > 0 && (forall i :: 0 <= i < |parts| ==> c !in parts[i]) {
      FieldsOfJoin(parts, c);
    }
  }

  // ---------------------------------------------------------------- hexadecimal and ASCII escapes

  /** The four lower-case digits `toHexString` writes for one char, high nibble first. */
  function Hex4(c: JChar): (r: JString)
    ensures |r| == 4 && forall i :: 0 <= i < 4 ==> IsHexDigit(r[i]) && !IsAsciiUpper(r[i])
  {
    var n := c as int;
    [LowerHexDigit(n / 4096 % 16), LowerHexDigit(n / 256 % 16), LowerHexDigit(n / 16 % 16), LowerHexDigit(n % 16)]
  }

  /** The four digits read back as the char's code. */
  lemma Hex4Value(c: JChar)
    ensures HexNumber(Hex4(c)) == c as int
  {
    var n := c as int;
    HexNumber4(Hex4(c));
    Base16Digits(n);
  }

  /** Four hex digits read as a number, high digit first. */
  lemma HexNumber4(h: JString)
    requires |h| == 4 && forall i :: 0 <= i < 4 ==> IsHexDigit(h[i])
    ensures HexNumber(h) == ((HexValue(h[0]) * 16 + HexValue(h[1])) * 16 + HexValue(h[2])) * 16 + HexValue(h[3])
  {
    var h1, h2, h3 := [h[0]], [h[0], h[1]], [h[0], h[1], h[2]];
    assert h1[..0] == [] && h2[..1] == h1 && h3[..2] == h2 && h[..3] == h3;
    assert HexNumber(h1) == HexValue(h[0]);
    assert HexNumber(h2) == HexNumber(h1) * 16 + HexValue(h[1]);
    assert HexNumber(h3) == HexNumber(h2) * 16 + HexValue(h[2]);
  }

  /** A 16-bit code is its four base-16 digits. */
  lemma Base16Digits(n: int)
    requires 0 <= n < 0x1_0000
    ensures n == ((n / 4096 % 16 * 16 + n / 256 % 16) * 16 + n / 16 % 16) * 16 + n % 16
  {
    assert n / 4096 % 16 == n / 4096;
    assert n / 256 == (n / 4096) * 16 + n / 256 % 16;
    assert n / 16 == (n / 256) * 16 + n / 16 % 16;
  }

  /** The text of `toHexString(str)`. */
  function HexCodes(s: JString): (r: JString)
    ensures |r| == 4 * |s|
  {
    if |s| == 0 then [] else HexCodes(s[..|s| - 1]) + Hex4(s[|s| - 1])
  }

  /** Each char occupies four digits of the result, at its own position. */
  lemma {:induction false} HexCodesAt(s: JString, i: nat)
    requires i < |s|
    ensures HexCodes(s)[4 * i..4 * i + 4] == Hex4(s[i])
  {
    if i < |s| - 1 {
      HexCodesAt(s[..|s| - 1], i);
      assert HexCodes(s)[..4 * (|s| - 1)] == HexCodes(s[..|s| - 1]);
    }
  }

  /** `toHexString(str)`: four digits per char; null gives null. */
  method ToHexString(str: Option<JString>) returns (r: Option<JString>)
    ensures str.None? ==> r.None?
    ensures str.Some? ==> r == Some(HexCodes(str.value))
  {
    if str.None? {
      return str;
    }
    var s := str.value;
    var sb: JString := [];
    var i := 0;
    while i < |s|
      invariant 0 <= i <= |s|
      invariant sb == HexCodes(s[..i])
    {
      var c := s[i] as int;
      assert s[..i + 1][..i] == s[..i];
      sb := sb + [LowerHexDigit(c / 4096 % 16)];
      sb := sb + [LowerHexDigit(c / 256 % 16)];
      sb := sb + [LowerHexDigit(c / 16 % 16)];
      sb := sb + [LowerHexDigit(c % 16)];
      i := i + 1;
    }
    assert s[..i] == s;
    r := Some(sb);
  }

  const BACKSLASH: JChar := 92
  const ZERO: JChar := 48

  function Zeros(n: nat): (r: JString)
    ensures |r| == n && forall i :: 0 <= i < n ==> r[i] == ZERO
  {
    seq(n, i => ZERO)
  }

  /** What `native2Ascii` writes for one char: itself up to `~`, else `\\u` and four hex digits. */
  function Native(ch: JChar): (r: JString)
    ensures ch <= 0x7E ==> r == [ch]
  {
    if ch <= 0x7E then [ch]
    else
      var hex := HexString(ch as nat);
      [BACKSLASH, BACKSLASH, 'u' as JChar] + Zeros(if |hex| < 4 then 4 - |hex| else 0) + hex
  }

  lemma {:induction false} HexNumberLeadingZeros(n: nat, h: JString)
    requires forall i :: 0 <= i < |h| ==> IsHexDigit(h[i])
    ensures forall i :: 0 <= i < |Zeros(n) + h| ==> IsHexDigit((Zeros(n) + h)[i])
    ensures HexNumber(Zeros(n) + h) == HexNumber(h)
    decreases |h|
  {
    if |h| == 0 {
      assert Zeros(n) + h == Zeros(n);
      ZerosValue(n);
    } else {
      assert (Zeros(n) + h)[..|Zeros(n) + h| - 1] == Zeros(n) + h[..|h| - 1];
      HexNumberLeadingZeros(n, h[..|h| - 1]);
    }
  }

  lemma {:induction false} ZerosValue(n: nat)
    ensures HexNumber(Zeros(n)) == 0
  {
    if n > 0 {
      assert Zeros(n)[..n - 1] == Zeros(n - 1);
      ZerosValue(n - 1);
    }
  }

  /** A char past `~` becomes `\\u` and exactly four lower-case hex digits whose value is the char. */
  lemma NativeEscape(ch: JChar)
    requires ch > 0x7E
    ensures var r := Native(ch);
      |r| == 7 && r[..3] == [BACKSLASH, BACKSLASH, 'u' as JChar] &&
      (forall i :: 3 <= i < 7 ==> IsHexDigit(r[i]) && !IsAsciiUpper(r[i])) &&
      HexNumber(r[3..]) == ch as int
  {
    var hex := HexString(ch as nat);
    HexStringLength(ch as nat, 4);
    var r := Native(ch);
    assert r[3..] == Zeros(4 - |hex|) + hex;
    HexNumberLeadingZeros(4 - |hex|, hex);
  }

  /** The text of `native2Ascii(stream)`. */
  function NativeToAscii(s: JString): JString {
    if |s| == 0 then [] else NativeToAscii(s[..|s| - 1]) + Native(s[|s| - 1])
  }

  /** The result is plain ASCII up to `~`. */
  lemma {:induction false} NativeToAsciiIsAscii(s: JString)
    ensures forall i :: 0 <= i < |NativeToAscii(s)| ==> NativeToAscii(s)[i] <= 0x7E
  {
    if |s| > 0 {
      var init := NativeToAscii(s[..|s| - 1]);
      var piece := Native(s[|s| - 1]);
      NativeToAsciiIsAscii(s[..|s| - 1]);
      NativeIsAscii(s[|s| - 1]);
      AtMostConcat(init, piece, 0x7E);
    }
  }

  /** Two texts with no char above `m` concatenate to one. */
  lemma AtMostConcat(a: JString, b: JString, m: JChar)
    requires forall i :: 0 <= i < |a| ==> a[i] <= m
    requires forall i :: 0 <= i < |b| ==> b[i] <= m
    ensures forall i :: 0 <= i < |a + b| ==> (a + b)[i] <= m
  {
    forall i | 0 <= i < |a + b| ensures (a + b)[i] <= m {
      if i >= |a| {
        assert (a + b)[i] == b[i - |a|];
      }
    }
  }

  /** What one char becomes is plain ASCII up to `~`. */
  lemma NativeIsAscii(ch: JChar)
    ensures forall i :: 0 <= i < |Native(ch)| ==> Native(ch)[i] <= 0x7E
  {
    if ch > 0x7E {
      NativeEscape(ch);
      var r := Native(ch);
      forall i | 0 <= i < |r| ensures r[i] <= 0x7E {
        if i < 3 {
          assert r[i] == r[..3][i];
        }
      }
    }
  }

  /** ASCII text up to `~` comes back unchanged. */
  lemma {:induction false} NativeToAsciiOfAscii(s: JString)
    requires forall i :: 0 <= i < |s| ==> s[i] <= 0x7E
    ensures NativeToAscii(s) == s
  {
    if |s| > 0 {
      NativeToAsciiOfAscii(s[..|s| - 1]);
      SnocRejoin(s, NativeToAscii(s));
    }
  }

  /** `native2Ascii(stream)`: null gives null. */
  method Native2Ascii(stream: Option<JString>) returns (r: Option<JString>)
    ensures stream.None? ==> r.None?
    ensures stream.Some? ==> r == Some(NativeToAscii(stream.value))
  {
    if stream.None? {
      return None;
    }
    var s := stream.value;
    var buffer: JString := [];
    var i := 0;
    while i < |s|
      invariant 0 <= i <= |s|
      invariant buffer == NativeToAscii(s[..i])
    {
      var piece := NativeChar(s[i]);
      assert s[..i + 1][..i] == s[..i];
      buffer := buffer + piece;
      i := i + 1;
    }
    assert s[..i] == s;
    r := Some(buffer);
  }

  /** The body of the `native2Ascii` loop: one char, escaped with zeros padded up to four hex digits. */
  method NativeChar(ch: JChar) returns (piece: JString)
    ensures piece == Native(ch)
  {
    if ch <= 0x7E {
      return [ch];
    }
    var hex := HexString(ch as nat);
    var pad: JString := [];
    var j := |hex|;
    while j < 4
      invariant |hex| <= j <= 4 || (|hex| > 4 && j == |hex|)
      invariant pad == Zeros(j - |hex|)
    {
      pad := pad + [ZERO];
      j := j + 1;
    }
    piece := [BACKSLASH, BACKSLASH, 'u' as JChar] + pad + hex;
  }

  // ---------------------------------------------------------------- character-class scans

  /** `isNumeric(str)`: every char a digit; `""` is numeric, null is not. */
  method IsNumeric(str: Option<JString>) returns (r: bool)
    ensures r <==> str.Some? && forall i :: 0 <= i < |str.value| ==> IsAsciiDigit(str.value[i])
  {
    if str.None? {
      return false;
    }
    var s := str.value;
    var i := 0;
    while i < |s|
      invariant 0 <= i <= |s|
      invariant forall k :: 0 <= k < i ==> IsAsciiDigit(s[k])
    {
      if !IsAsciiDigit(s[i]) {
        return false;
      }
      i := i + 1;
    }
    r := true;
  }

  /** `isHex(str)`: every char a hex digit; a null string throws. */
  method IsHex(str: Option<JString>) returns (r: Result<bool, Exception>)
    ensures str.None? <==> r == Err(NullPointerException)
    ensures str.Some? ==> r == Ok(forall i :: 0 <= i < |str.value| ==> IsHexDigit(str.value[i]))
  {
    if str.None? {
      return Err(NullPointerException);
    }
    var s := str.value;
    var i := 0;
    while i < |s|
      invariant 0 <= i <= |s|
      invariant forall k :: 0 <= k < i ==> IsHexDigit(s[k])
    {
      if !IsHexDigit(s[i]) {
        return Ok(false);
      }
      i := i + 1;
    }
    r := Ok(true);
  }

  /** `containsNonBasicLatinChars(str)`: some char above `\u00FF`; false for null. */
  method ContainsNonBasicLatinChars(str: Option<JString>) returns (r: bool)
    ensures r <==> str.Some? && exists i :: 0 <= i < |str.value| && str.value[i] > 0xFF
  {
    r := false;
    if str.Some? {
      var s := str.value;
      var i := 0;
      while i < |s|
        invariant 0 <= i <= |s|
        invariant forall k :: 0 <= k < i ==> s[k] <= 0xFF
      {
        if s[i] > 0xFF {
          r := true;
          break;
        }
        i := i + 1;
      }
    }
  }

  /** `toHexString` writes only hex digits, so its output always passes `isHex`, and digits are hex. */
  lemma HexCodesAreHex(s: JString)
    ensures forall i :: 0 <= i < |HexCodes(s)| ==> IsHexDigit(HexCodes(s)[i])
  {
    forall i | 0 <= i < |HexCodes(s)| ensures IsHexDigit(HexCodes(s)[i]) {
      HexCodesAt(s, i / 4);
      assert HexCodes(s)[i] == HexCodes(s)[4 * (i / 4)..4 * (i / 4) + 4][i % 4];
    }
  }

  // ---------------------------------------------------------------- strip and normalize

  /** The chars of `s` that occur in `good`, in order. */
  function Kept(s: JString, good: JString): (r: JString)
    ensures |r| <= |s| && forall i :: 0 <= i < |r| ==> r[i] in good
  {
    if |s| == 0 then []
    else
      var init := Kept(s[..|s| - 1], good);
      if s[|s| - 1] in good then init + [s[|s| - 1]] else init
  }

  /** Keeping only good chars drops nothing from text made of good chars. */
  lemma {:induction false} KeptAllGood(s: JString, good: JString)
    ensures Kept(s, good) == s <==> forall i :: 0 <= i < |s| ==> s[i] in good
  {
    if |s| > 0 {
      KeptAllGood(s[..|s| - 1], good);
      if s[|s| - 1] !in good {
        assert |Kept(s, good)| < |s| by {
          assert |Kept(s[..|s| - 1], good)| <= |s| - 1;
        }
      }
    }
  }

  /** `strip(s, goodChars)`: only the chars of `goodChars` are kept; null text, or null `goodChars` with some text, throws. */
  method Strip(s: Option<JString>, goodChars: Option<JString>) returns (r: Result<JString, Exception>)
    ensures s.None? || (goodChars.None? && |s.value| > 0) <==> r == Err(NullPointerException)
    ensures s.Some? && goodChars.Some? ==> r == Ok(Kept(s.value, goodChars.value))
    ensures s.Some? && |s.value| == 0 ==> r == Ok([])
  {
    if s.None? {
      return Err(NullPointerException);
    }
    var text := s.value;
    var result: JString := [];
    var i := 0;
    while i < |text|
      invariant 0 <= i <= |text|
      invariant goodChars.Some? ==> result == Kept(text[..i], goodChars.value)
      invariant goodChars.None? ==> i == 0 && result == []
    {
      if goodChars.None? {
        return Err(NullPointerException);
      }
      var c := text[i];
      assert text[..i + 1][..i] == text[..i];
      if IndexOfChar(goodChars.value, c) >= 0 {
        result := result + [c];
      }
      i := i + 1;
    }
    if goodChars.Some? {
      assert text[..i] == text;
    }
    r := Ok(result);
  }

  /** The `n` consecutive code units from `lo` on. */
  function Run(lo: nat, n: nat): (r: JString)
    requires lo + n <= 0x1_0000
    ensures |r| == n && forall i :: 0 <= i < n ==> r[i] == (lo + i) as JChar
  {
    seq(n, i requires 0 <= i < n => (lo + i) as JChar)
  }

  /** The good chars of `strip(s)`: `" -"`, then `a`-`z`, `A`-`Z` and `0`-`9`. */
  const GOOD_CHARS: JString := [32, 45] + Run(97, 26) + Run(65, 26) + Run(48, 10)

  lemma InRun(c: JChar, lo: nat, n: nat)
    requires lo + n <= 0x1_0000
    ensures c in Run(lo, n) <==> lo <= c as int < lo + n
  {
    if lo <= c as int < lo + n {
      assert Run(lo, n)[c as int - lo] == c;
    }
  }

  /** `GOOD_CHARS` holds exactly the space, `-` and the ASCII letters and digits. */
  lemma GoodCharsMeaning(c: JChar)
    ensures c in GOOD_CHARS <==> c == 32 || c == 45 || IsAsciiAlnum(c)
  {
    InRun(c, 97, 26);
    InRun(c, 65, 26);
    InRun(c, 48, 10);
  }

  /** `strip(s)`: `strip(s, GOOD_CHARS)`. */
  method StripDefault(s: Option<JString>) returns (r: Result<JString, Exception>)
    ensures s.None? <==> r == Err(NullPointerException)
    ensures s.Some? ==> r == Ok(Kept(s.value, GOOD_CHARS))
  {
    r := Strip(s, Some(GOOD_CHARS));
  }

  /** What `normalize(s)` returns: lower-cased, stripped and trimmed; null gives `""`. */
  function Normalized(s: Option<JString>): JString {
    if s.None? then [] else Trim(Kept(LowerAscii(s.value), GOOD_CHARS))
  }

  /** `normalize(s)`. */
  method Normalize(s: Option<JString>) returns (r: JString)
    ensures r == Normalized(s)
  {
    if s.None? {
      return [];
    }
    var lower := LowerAscii(s.value);
    var stripped := StripDefault(Some(lower));
    r := Trim(stripped.value);
  }

  lemma TrimOfTrimmed(s: JString)
    requires s == [] || (s[0] > 32 && s[|s| - 1] > 32)
    ensures Trim(s) == s
  {
    if s != [] {
      assert LeadingBlanks(s) == 0;
      assert TrimEnd(s, 0, |s|) == |s|;
      assert s[0..|s|] == s;
    }
  }

  /** One of the chars a normalized text may hold. */
  predicate IsNormalChar(c: JChar) {
    c == 32 || c == 45 || IsAsciiLower(c) || IsAsciiDigit(c)
  }

  /** A normalized text holds only spaces, `-`, lower-case letters and digits, and does not start or end with a space. */
  lemma NormalizedMeaning(s: Option<JString>)
    ensures var n := Normalized(s);
      (forall i :: 0 <= i < |n| ==> IsNormalChar(n[i])) && (n != [] ==> n[0] != 32 && n[|n| - 1] != 32)
  {
    if s.Some? {
      var k := Kept(LowerAscii(s.value), GOOD_CHARS);
      KeptLowerIsNormal(s.value);
      TrimKeepsNormal(k);
      TrimIsSlice(k);
    }
  }

  /** Every char kept from lower-cased text is a space, `-`, a lower-case letter or a digit. */
  lemma KeptLowerIsNormal(s: JString)
    ensures forall j :: 0 <= j < |Kept(LowerAscii(s), GOOD_CHARS)| ==> IsNormalChar(Kept(LowerAscii(s), GOOD_CHARS)[j])
  {
    var low := LowerAscii(s);
    var k := Kept(low, GOOD_CHARS);
    forall j | 0 <= j < |k| ensures IsNormalChar(k[j]) {
      GoodCharsMeaning(k[j]);
      KeptIsSubsequence(low, GOOD_CHARS, j);
      var p :| 0 <= p < |low| && low[p] == k[j];
      assert !IsAsciiUpper(low[p]);
    }
  }

  /** Trimming text made of normal chars leaves normal chars. */
  lemma TrimKeepsNormal(k: JString)
    requires forall j :: 0 <= j < |k| ==> IsNormalChar(k[j])
    ensures forall i :: 0 <= i < |Trim(k)| ==> IsNormalChar(Trim(k)[i])
  {
    forall i | 0 <= i < |Trim(k)| ensures IsNormalChar(Trim(k)[i]) {
      TrimCharAt(k, i);
    }
  }

  /** Normalizing a normalized text changes nothing. */
  lemma NormalizedIdempotent(s: Option<JString>)
    ensures Normalized(Some(Normalized(s))) == Normalized(s)
  {
    var n := Normalized(s);
    NormalizedMeaning(s);
    assert LowerAscii(n) == n;
    forall i | 0 <= i < |n| ensures n[i] in GOOD_CHARS {
      GoodCharsMeaning(n[i]);
    }
    KeptAllGood(n, GOOD_CHARS);
    assert n == [] || (n[0] > 32 && n[|n| - 1] > 32);
    TrimOfTrimmed(n);
  }

  /** Every kept char is a char of the input. */
  lemma {:induction false} KeptIsSubsequence(s: JString, good: JString, i: nat)
    requires i < |Kept(s, good)|
    ensures Kept(s, good)[i] in s
  {
    if |s| > 0 {
      var init := s[..|s| - 1];
      if i < |Kept(init, good)| {
        KeptIsSubsequence(init, good, i);
      }
    }
  }

  /** `indent(sb, level)`: two spaces per level are appended. */
  method Indent(sb: StringBuffer, level: int)
    modifies sb
    ensures sb.text == old(sb.text) + seq(if level > 0 then 2 * level else 0, i => 32 as JChar)
  {
    var i := 0;
    while i < level
      invariant 0 <= i <= if level > 0 then level else 0
      invariant sb.text == old(sb.text) + seq(2 * i, k => 32 as JChar)
    {
      sb.Append([32, 32]);
      i := i + 1;
    }
  }

  // ---------------------------------------------------------------- StringTokenizer: tokenize, split, getListFromString

  /** The length of the token at the front of `t`: the chars before the first delimiter. */
  function RunLength(t: JString, delims: JString): (n: nat)
    ensures n <= |t| && (forall k :: 0 <= k < n ==> t[k] !in delims) && (n < |t| ==> t[n] in delims)
  {
    if |t| == 0 || t[0] in delims then 0
    else
      var n := RunLength(t[1..], delims);
      assert forall k :: 1 <= k < n + 1 ==> t[k] == t[1..][k - 1];
      n + 1
  }

  /**
   * The tokens a `StringTokenizer` over `s` returns: the maximal runs of non-delimiter chars, in
   * order; the delimiters themselves are dropped.
   */
  function Tokens(s: JString, delims: JString): (r: seq<JString>)
    ensures forall i :: 0 <= i < |r| ==> |r[i]| > 0 && forall k :: 0 <= k < |r[i]| ==> r[i][k] !in delims
    decreases |s|
  {
    if |s| == 0 then []
    else if s[0] in delims then Tokens(s[1..], delims)
    else
      var n := RunLength(s, delims);
      [s[..n]] + Tokens(s[n..], delims)
  }

  /** A run of `n` non-delimiters ended by a delimiter or by the end of the text is the first token. */
  lemma {:induction false} RunLengthIs(t: JString, delims: JString, n: nat)
    requires n <= |t| && (forall k :: 0 <= k < n ==> t[k] !in delims) && (n == |t| || t[n] in delims)
    ensures RunLength(t, delims) == n
  {
    if n > 0 {
      RunLengthIs(t[1..], delims, n - 1);
    }
  }

  /** `tokenize(input, parseFor)`: the tokens, in order; a null text or null delimiters throw. */
  method Tokenize(input: Option<JString>, parseFor: Option<JString>) returns (r: Result<seq<JString>, Exception>)
    ensures input.None? || parseFor.None? <==> r == Err(NullPointerException)
    ensures input.Some? && parseFor.Some? ==> r == Ok(Tokens(input.value, parseFor.value))
  {
    if input.None? || parseFor.None? {
      return Err(NullPointerException);
    }
    var s, delims := input.value, parseFor.value;
    var strList: seq<JString> := [];
    var pos := 0;
    while pos < |s|
      invariant 0 <= pos <= |s|
      invariant strList + Tokens(s[pos..], delims) == Tokens(s, delims)
      decreases |s| - pos
    {
      pos := SkipDelimiters(s, delims, pos);
      if pos < |s| {
        var start := pos;
        pos := ScanToken(s, delims, start);
        ghost var rest := Tokens(s[pos..], delims);
        assert strList + [s[start..pos]] + rest == strList + ([s[start..pos]] + rest);
        strList := strList + [s[start..pos]];
      }
    }
    assert s[pos..] == [] && strList + [] == strList;
    r := Ok(strList);
  }

  /** `skipDelimiters`: past the delimiters at `pos`; the tokens still ahead are the same. */
  method SkipDelimiters(s: JString, delims: JString, pos: nat) returns (p: nat)
    requires pos <= |s|
    ensures pos <= p <= |s| && (p < |s| ==> s[p] !in delims)
    ensures Tokens(s[p..], delims) == Tokens(s[pos..], delims)
  {
    p := pos;
    while p < |s| && s[p] in delims
      invariant pos <= p <= |s|
      invariant Tokens(s[p..], delims) == Tokens(s[pos..], delims)
    {
      assert s[p..][1..] == s[p + 1..];
      p := p + 1;
    }
  }

  /** `scanToken`: to the end of the token at `start`, which is the first of the tokens ahead. */
  method ScanToken(s: JString, delims: JString, start: nat) returns (end: nat)
    requires start < |s| && s[start] !in delims
    ensures start < end <= |s|
    ensures Tokens(s[start..], delims) == [s[start..end]] + Tokens(s[end..], delims)
  {
    end := start;
    while end < |s| && s[end] !in delims
      invariant start <= end <= |s|
      invariant forall k :: start <= k < end ==> s[k] !in delims
    {
      end := end + 1;
    }
    var t := s[start..];
    RunLengthIs(t, delims, end - start);
    assert t[..end - start] == s[start..end] && t[end - start..] == s[end..];
  }

  /** `split(line, delim)`: the same tokens as `tokenize`, as an array. */
  method Split(line: Option<JString>, delim: Option<JString>) returns (r: Result<seq<JString>, Exception>)
    ensures line.None? || delim.None? <==> r == Err(NullPointerException)
    ensures line.Some? && delim.Some? ==> r == Ok(Tokens(line.value, delim.value))
  {
    r := Tokenize(line, delim);
  }

  /** Each token trimmed. */
  function TrimAll(tokens: seq<JString>): (r: seq<JString>)
    ensures |r| == |tokens| && forall i :: 0 <= i < |r| ==> r[i] == Trim(tokens[i])
  {
    seq(|tokens|, i requires 0 <= i < |tokens| => Trim(tokens[i]))
  }

  /** `getListFromString(s, delim)`: the trimmed tokens; a null text gives null, null delimiters throw. */
  method GetListFromString(s: Option<JString>, delim: Option<JString>) returns (r: Result<Option<seq<JString>>, Exception>)
    ensures s.None? ==> r == Ok(None)
    ensures s.Some? && delim.None? ==> r == Err(NullPointerException)
    ensures s.Some? && delim.Some? ==> r == Ok(Some(TrimAll(Tokens(s.value, delim.value))))
  {
    if s.None? {
      return Ok(None);
    }
    var tokens := Tokenize(s, delim);
    if tokens.Err? {
      return Err(tokens.error);
    }
    var result: seq<JString> := [];
    var i := 0;
    while i < |tokens.value|
      invariant 0 <= i <= |tokens.value|
      invariant result == TrimAll(tokens.value[..i])
    {
      result := result + [Trim(tokens.value[i])];
      i := i + 1;
    }
    assert tokens.value[..i] == tokens.value;
    r := Ok(Some(result));
  }

  /** Text without delimiters is a single token; text of delimiters only has none. */
  lemma {:induction false} TokensOfPlainText(s: JString, delims: JString)
    requires (forall k :: 0 <= k < |s| ==> s[k] !in delims)
    ensures Tokens(s, delims) == if |s| == 0 then [] else [s]
  {
    if |s| > 0 {
      RunLengthIs(s, delims, |s|);
      assert s[..|s|] == s && s[|s|..] == [];
    }
  }

  lemma {:induction false} TokensOfDelimiters(s: JString, delims: JString)
    requires (forall k :: 0 <= k < |s| ==> s[k] in delims)
    ensures Tokens(s, delims) == []
  {
    if |s| > 0 {
      TokensOfDelimiters(s[1..], delims);
    }
  }

  /**
   * Joining delimiter-free, non-empty tokens with a delimiter and tokenizing the result gives the
   * tokens back.
   */
  lemma {:induction false} TokensOfJoin(parts: seq<JString>, sep: JChar, delims: JString)
    requires sep in delims
    requires forall i :: 0 <= i < |parts| ==> |parts[i]| > 0 && forall k :: 0 <= k < |parts[i]| ==> parts[i][k] !in delims
    ensures Tokens(JoinWith(parts, [sep]), delims) == parts
  {
    if |parts| == 1 {
      TokensOfPlainText(parts[0], delims);
    } else if |parts| > 1 {
      var p, rest := parts[0], parts[1..];
      assert parts == [p] + rest;
      JoinConsFirst(p, rest, [sep]);
      var t := p + [sep] + JoinWith(rest, [sep]);
      RunLengthIs(t, delims, |p|);
      assert t[..|p|] == p;
      assert t[|p|..][1..] == JoinWith(rest, [sep]);
      TokensOfJoin(rest, sep, delims);
    }
  }
}
