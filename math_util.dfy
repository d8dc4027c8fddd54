/** `MathUtil.parseSignedIntString`: a forgiving `int` parser that tolerates a leading `+`. */
module MathUtil {
  import opened Wrappers
  import opened JStrings

  const PLUS: JChar := '+' as JChar

  /**
   * The input is trimmed; empty text gives 0; one leading `+` is dropped (`+` alone gives 0); the
   * rest goes to `Integer.parseInt`, whose failure gives 0.  A null input throws.
   */
  function ParseSignedIntString(s: Option<JString>): (r: Result<int, Exception>)
    ensures s.None? <==> r == Err(NullPointerException)
    ensures r.Ok? ==> INT_MIN <= r.value <= INT_MAX
  {
    match s
    case None => Err(NullPointerException)
    case Some(text) =>
      var t := Trim(text);
      if |t| == 0 then Ok(0)
      else if t[0] == PLUS && |t| < 2 then Ok(0)
      else
        var digits := if t[0] == PLUS then t[1..] else t;
        Ok(ParseInt(digits).GetOr(0))
  }

  /** Empty or blank text gives 0. */
  lemma BlankGivesZero(text: JString)
    requires forall i :: 0 <= i < |text| ==> text[i] <= 32
    ensures ParseSignedIntString(Some(text)) == Ok(0)
  {
    TrimEmpty(text);
  }

  /**
   * Any integer, written in decimal with an optional `+` (non-negative values) and surrounded by
   * blanks, is read back when it fits in an `int`, and gives 0 when it does not.
   */
  lemma {:induction false} ReadsBackDecimal(n: int, plus: bool, before: JString, after: JString)
    requires plus ==> n >= 0
    requires forall i :: 0 <= i < |before| ==> before[i] <= 32
    requires forall i :: 0 <= i < |after| ==> after[i] <= 32
    ensures ParseSignedIntString(Some(before + (if plus then [PLUS] else []) + SignedDecimalString(n) + after))
      == Ok(if INT_MIN <= n <= INT_MAX then n else 0)
  {
    var digits := SignedDecimalString(n);
    var core := (if plus then [PLUS] else []) + digits;
    var text := before + (if plus then [PLUS] else []) + digits + after;
    assert text == before + core + after;
    assert core[0] > 32 && core[|core| - 1] > 32;
    TrimOfPadded(before, core, after);
    ParseOfSignedDecimalString(n, INT_MIN, INT_MAX);
    var rest := if core[0] == PLUS then core[1..] else core;
    assert rest == digits by {
      if plus { assert core[1..] == digits; } else { assert digits[0] != PLUS; }
    }
    assert |core| >= 2 || core[0] != PLUS;
    assert ParseSignedIntString(Some(text)) == Ok(ParseInt(rest).GetOr(0));
  }

  /** Blanks around a core whose ends are not blank are exactly what `trim` removes. */
  lemma TrimOfPadded(before: JString, core: JString, after: JString)
    requires |core| > 0 && core[0] > 32 && core[|core| - 1] > 32
    requires forall i :: 0 <= i < |before| ==> before[i] <= 32
    requires forall i :: 0 <= i < |after| ==> after[i] <= 32
    ensures Trim(before + core + after) == core
  {
    var s := before + core + after;
    var lo, hi := |before|, |before| + |core|;
    assert s[lo] == core[0] && s[hi - 1] == core[|core| - 1];
    forall k | 0 <= k < lo ensures s[k] <= 32 {
      assert s[k] == before[k];
    }
    forall k | hi <= k < |s| ensures s[k] <= 32 {
      assert s[k] == after[k - hi];
    }
    BlanksFromStops(s, 0, lo);
    TrimEndStops(s, lo, |s|, hi);
    assert s[lo..hi] == core;
  }

  /** `+-5` is -5: after the `+` is dropped, `Integer.parseInt` accepts the `-`. */
  lemma PlusMinus()
    ensures ParseSignedIntString(Some(Lit("+-5"))) == Ok(-5)
  {
    var t := Lit("+-5");
    TrimOfPadded([], t, []);
    assert [] + t + [] == t;
    assert t[1..] == SignedDecimalString(-5);
    ParseOfSignedDecimalString(-5, INT_MIN, INT_MAX);
  }

  /** Text that is not a number, or a `+` alone, gives 0. */
  lemma Unparsable()
    ensures ParseSignedIntString(Some(Lit("x1"))) == Ok(0)
    ensures ParseSignedIntString(Some(Lit(" + "))) == Ok(0)
  {
    var a := Lit("x1");
    TrimOfPadded([], a, []);
    assert [] + a + [] == a;
    assert !IsAsciiDigit(a[0]);
    var b := Lit(" + ");
    TrimOfPadded(b[..1], b[1..2], b[2..]);
    assert b[..1] + b[1..2] + b[2..] == b;
  }
}
