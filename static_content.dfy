/**
 * `StaticContent`: the list of static content servers read once from a system property, and the
 * choice of a server for a relative URL by the URL's hash.
 */
module StaticContent {
  import opened Wrappers
  import opened JStrings

  const COMMA: JChar := ',' as JChar
  const SLASH: JChar := '/' as JChar

  /** One configured entry: trimmed, then one trailing `/` removed. */
  function NormaliseEntry(e: JString): JString {
    var t := Trim(e);
    if EndsWith(t, [SLASH]) then t[..|t| - 1] else t
  }

  /**
   * The cached server list for the property's value: none for a missing property, or when the
   * comma split leaves no entry; otherwise each entry normalised.
   */
  function ConfiguredServers(prop: Option<JString>): (r: Option<seq<JString>>)
    ensures r.Some? ==> |r.value| > 0
  {
    match prop
    case None => None
    case Some(p) =>
      var parts := SplitOn(p, COMMA);
      if |parts| == 0 then None
      else Some(seq(|parts|, i requires 0 <= i < |parts| => NormaliseEntry(parts[i])))
  }

  /** The loop of the static initialiser: each entry of the split array is normalised in place. */
  method NormaliseServers(urls: array<JString>)
    modifies urls
    ensures forall i :: 0 <= i < urls.Length ==> urls[i] == NormaliseEntry(old(urls[i]))
  {
    var i := 0;
    while i < urls.Length
      invariant 0 <= i <= urls.Length
      invariant forall k :: 0 <= k < i ==> urls[k] == NormaliseEntry(old(urls[k]))
      invariant forall k :: i <= k < urls.Length ==> urls[k] == old(urls[k])
    {
      ghost var entry := urls[i];
      var url := Trim(urls[i]);
      if EndsWith(url, [SLASH]) {
        url := url[..|url| - 1];
      }
      assert url == NormaliseEntry(entry);
      urls[i] := url;
      i := i + 1;
    }
  }

  /** The static initialiser, for a given value of the system property. */
  method LoadServers(prop: Option<JString>) returns (servers: Option<seq<JString>>)
    ensures servers == ConfiguredServers(prop)
  {
    if prop.None? {
      return None;
    }
    var parts := SplitOn(prop.value, COMMA);
    if |parts| == 0 {
      return None;
    }
    var urls := new JString[|parts|](i requires 0 <= i < |parts| => parts[i]);
    NormaliseServers(urls);
    assert urls[..] == seq(|parts|, i requires 0 <= i < |parts| => NormaliseEntry(parts[i]));
    servers := Some(urls[..]);
  }

  /** `String.hashCode()`: `s[0]*31^(n-1) + ... + s[n-1]` in 32-bit `int` arithmetic. */
  function HashCode(s: JString): (h: int)
    ensures INT_MIN <= h <= INT_MAX
  {
    if |s| == 0 then 0 else WrapInt(31 * HashCode(s[..|s| - 1]) + s[|s| - 1] as int)
  }

  /** The unbounded polynomial `s[0]*31^(n-1) + ... + s[n-1]` that `hashCode` computes modulo 2^32. */
  function HashPolynomial(s: JString): int {
    if |s| == 0 then 0 else 31 * HashPolynomial(s[..|s| - 1]) + s[|s| - 1] as int
  }

  /** Wrapping at every step of the loop is wrapping once at the end. */
  lemma {:induction false} HashIsWrappedPolynomial(s: JString)
    ensures HashCode(s) == WrapInt(HashPolynomial(s))
  {
    if |s| > 0 {
      var init := s[..|s| - 1];
      HashIsWrappedPolynomial(init);
      var c := s[|s| - 1] as int;
      var h := HashCode(init);
      var p := HashPolynomial(init);
      assert (h - p) % 0x1_0000_0000 == 0;
      var k := (h - p) / 0x1_0000_0000;
      assert h == p + k * 0x1_0000_0000;
      assert 31 * h + c == 31 * p + c + (31 * k) * 0x1_0000_0000;
      WrapShift(31 * p + c, 31 * k);
    }
  }

  lemma WrapShift(x: int, k: int)
    ensures WrapInt(x + k * 0x1_0000_0000) == WrapInt(x)
  {
    assert (x + k * 0x1_0000_0000) % 0x1_0000_0000 == x % 0x1_0000_0000;
  }

  /** `h & 0x7fffffff` for an `int` `h`: its low 31 bits, a non-negative value. */
  function Mask31(h: int): (r: nat)
    ensures r < 0x8000_0000
  {
    h % 0x8000_0000
  }

  /** The index `serverFor` picks among `n` servers. */
  function ServerIndex(url: JString, n: nat): nat
    requires n > 0
  {
    Mask31(HashCode(url)) % n
  }

  /** `serverFor(url)`: `""` unless servers are configured and the url is a path starting with `/`. */
  function ServerFor(servers: Option<seq<JString>>, url: Option<JString>): JString
    requires servers.Some? ==> |servers.value| > 0
  {
    if servers.None? || url.None? || |url.value| == 0 || url.value[0] != SLASH then []
    else servers.value[ServerIndex(url.value, |servers.value|)]
  }

  /** `urlFor(url)`: the url itself when no server applies, else the server followed by the url. */
  function UrlFor(servers: Option<seq<JString>>, url: Option<JString>): Option<JString>
    requires servers.Some? ==> |servers.value| > 0
  {
    var server := ServerFor(servers, url);
    if |server| == 0 then url else Some(server + url.value)
  }

  /**
   * The cases of `serverFor`: `""` without servers or for a url that is not a `/` path; otherwise
   * one of the configured servers, the same one for the same url.
   */
  lemma ServerForCases(servers: Option<seq<JString>>, url: Option<JString>)
    requires servers.Some? ==> |servers.value| > 0
    ensures servers.None? || url.None? || !StartsWith(url.value, [SLASH]) ==> ServerFor(servers, url) == []
    ensures servers.Some? && url.Some? && StartsWith(url.value, [SLASH]) ==>
      ServerIndex(url.value, |servers.value|) < |servers.value| &&
      ServerFor(servers, url) in servers.value
  {
  }

  /** Prefixing the server is always enough: `urlFor(url)` is `serverFor(url) + url`. */
  lemma UrlForIsConcatenation(servers: Option<seq<JString>>, url: JString)
    requires servers.Some? ==> |servers.value| > 0
    ensures UrlFor(servers, Some(url)) == Some(ServerFor(servers, Some(url)) + url)
    ensures UrlFor(servers, None) == None
  {
    assert [] + url == url;
  }

  /**
   * A normalised entry ends with `/` exactly when the trimmed entry ended with `//`: the promise that
   * a server never ends with `/` fails for such entries.
   */
  lemma {:induction false} EntryEndsWithSlash(e: JString)
    ensures EndsWith(NormaliseEntry(e), [SLASH]) <==> EndsWith(Trim(e), [SLASH, SLASH])
  {
    var t := Trim(e);
    if EndsWith(t, [SLASH]) {
      var r := t[..|t| - 1];
      if |r| > 0 {
        assert r[|r| - 1..] == [t[|t| - 2]];
        assert t[|t| - 2..] == [t[|t| - 2], t[|t| - 1]];
      }
    } else if |t| >= 2 {
      assert t[|t| - 1..] == [t[|t| - 1]];
      assert t[|t| - 2..][1] == t[|t| - 1];
    }
  }

  /** `"http://a//"` is configured as `"http://a/"`. */
  lemma DoubleSlashEntry()
    ensures NormaliseEntry(Lit("http://a//")) == Lit("http://a/")
  {
    var e := Lit("http://a//");
    assert e[0] > 32 && e[|e| - 1] > 32;
    assert LeadingBlanks(e) == 0;
    assert TrimEnd(e, 0, |e|) == |e|;
    assert Trim(e) == e;
    assert e[..|e| - 1] == Lit("http://a/");
  }

  /** A property made of commas only configures no server; text without a comma is one server. */
  lemma SplitCases(p: JString)
    ensures (forall i :: 0 <= i < |p| ==> p[i] == COMMA) && |p| > 0 ==> ConfiguredServers(Some(p)) == None
    ensures COMMA !in p ==> ConfiguredServers(Some(p)) == Some([NormaliseEntry(p)])
  {
    if |p| > 0 && forall i :: 0 <= i < |p| ==> p[i] == COMMA {
      assert p[0] == COMMA;
      AllCommas(p);
    }
    if COMMA !in p {
      var parts := SplitOn(p, COMMA);
      assert parts == [p];
      assert seq(|parts|, i requires 0 <= i < |parts| => NormaliseEntry(parts[i])) == [NormaliseEntry(p)];
    }
  }

  lemma {:induction false} AllCommas(p: JString)
    requires forall i :: 0 <= i < |p| ==> p[i] == COMMA
    ensures forall i :: 0 <= i < |Fields(p, COMMA)| ==> Fields(p, COMMA)[i] == []
    decreases |p|
  {
    if |p| > 0 {
      assert IndexOfChar(p, COMMA) == 0;
      AllCommas(p[1..]);
    }
  }

  /** The hash of `"/"` is 47, so with two servers the url `"/"` goes to the second. */
  lemma RootGoesToSecond(a: JString, b: JString)
    ensures ServerFor(Some([a, b]), Some(Lit("/"))) == b
  {
    var u := Lit("/");
    assert u[..0] == [];
    assert HashCode(u) == 47;
  }
}
