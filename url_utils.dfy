/** `UrlUtils.appendQueryParam`: adds `name=value` to a URL held in a builder or a string. */
module UrlUtils {
  import opened Wrappers
  import opened JStrings

  const QUESTION: JChar := '?' as JChar
  const AMPERSAND: JChar := '&' as JChar
  const EQUALS: JChar := '=' as JChar

  /** What `StringBuilder.append(String)` writes for a possibly null string. */
  function Appended(s: Option<JString>): JString {
    match s
    case Some(t) => t
    case None => Lit("null")
  }

  /** The separator chosen for a URL: `&` if it holds a `?` past its first char, else `?`. */
  function Separator(url: JString): JChar {
    if IndexOfChar(url, QUESTION) > 0 then AMPERSAND else QUESTION
  }

  /** `appendQueryParam(StringBuilder, name, value)`; a null builder is left alone. */
  method AppendQueryParam(sb: StringBuffer?, name: Option<JString>, value: Option<JString>)
    modifies sb
    ensures sb != null ==> sb.text == old(sb.text) + [Separator(old(sb.text))] + Appended(name) + [EQUALS] + Appended(value)
  {
    if sb != null {
      if IndexOfChar(sb.text, QUESTION) > 0 {
        sb.Append([AMPERSAND]);
      } else {
        sb.Append([QUESTION]);
      }
      sb.Append(Appended(name));
      sb.Append([EQUALS]);
      sb.Append(Appended(value));
    }
  }

  /** `appendQueryParam(String, name, value)`: a null URL is treated as empty. */
  method AppendQueryParamToUrl(url: Option<JString>, name: Option<JString>, value: Option<JString>)
    returns (r: JString)
    ensures var u := url.GetOr([]);
      r == u + [Separator(u)] + Appended(name) + [EQUALS] + Appended(value)
  {
    var sb := new StringBuffer([]);
    if url.Some? {
      sb.Append(url.value);
    }
    AppendQueryParam(sb, name, value);
    r := sb.text;
  }

  /**
   * The separator is `&` exactly when the URL holds a `?` and does not start with one; a URL whose
   * first `?` is at index 0 gets a second `?`.
   */
  lemma SeparatorMeaning(url: JString)
    ensures Separator(url) == AMPERSAND <==> QUESTION in url && url[0] != QUESTION
    ensures Separator(url) == AMPERSAND || Separator(url) == QUESTION
  {
  }

  /** A URL starting with `?` gets a second `?`: the one at index 0 does not count. */
  lemma LeadingQuestionMark()
    ensures Separator(Lit("?a=1")) == QUESTION
  {
    assert Lit("?a=1")[0] == QUESTION;
  }

  /** A URL with an existing query gets `&`. */
  lemma ExistingQuery()
    ensures Separator(Lit("/p?a=1")) == AMPERSAND
  {
    var u := Lit("/p?a=1");
    assert u[2] == QUESTION;
    SeparatorMeaning(u);
  }
}
