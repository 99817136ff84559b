/** DispatcherServlet.escapeHtml: the five HTML-special characters written as entities. */
module DispatcherServlet {
  import opened Wrappers
  import opened JavaStrings

  /** The replacement of a single character. */
  function EscapeChar(c: char): string {
    match c
    case '&' => "&amp;"
    case '<' => "&lt;"
    case '>' => "&gt;"
    case '"' => "&quot;"
    case '\'' => "&#39;"
    case _ => [c]
  }

  /** The reference: each character of `s` replaced by its escape, in order. */
  function EscapeEach(s: string): string
    decreases |s|
  {
    if s == [] then [] else EscapeChar(s[0]) + EscapeEach(s[1..])
  }

  /** The chain of replace calls in escapeHtml, '&' first. */
  function ReplaceChain(s: string): string {
    ReplaceChar(ReplaceChar(ReplaceChar(ReplaceChar(ReplaceChar(s, '&', "&amp;"), '<', "&lt;"), '>', "&gt;"), '"', "&quot;"), '\'', "&#39;")
  }

  /** escapeHtml; None stands for a null string. */
  function EscapeHtml(s: Option<string>): (r: string)
    ensures s.None? ==> r == []
    ensures s.Some? ==> r == EscapeEach(s.value)
  {
    if s.None? then ""
    else
      ChainIsEscapeEach(s.value);
      ReplaceChain(s.value)
  }

  /** The chain distributes over concatenation. */
  lemma ReplaceChainConcat(a: string, b: string)
    ensures ReplaceChain(a + b) == ReplaceChain(a) + ReplaceChain(b)
  {
    var a1, b1 := ReplaceChar(a, '&', "&amp;"), ReplaceChar(b, '&', "&amp;");
    ReplaceCharConcat(a, b, '&', "&amp;");
    var a2, b2 := ReplaceChar(a1, '<', "&lt;"), ReplaceChar(b1, '<', "&lt;");
    ReplaceCharConcat(a1, b1, '<', "&lt;");
    var a3, b3 := ReplaceChar(a2, '>', "&gt;"), ReplaceChar(b2, '>', "&gt;");
    ReplaceCharConcat(a2, b2, '>', "&gt;");
    var a4, b4 := ReplaceChar(a3, '"', "&quot;"), ReplaceChar(b3, '"', "&quot;");
    ReplaceCharConcat(a3, b3, '"', "&quot;");
    ReplaceCharConcat(a4, b4, '\'', "&#39;");
  }

  /** The replaces from the `k`-th on (counting from 0) leave alone a string without their characters. */
  lemma UntouchedFrom(s: string, k: nat)
    requires k <= 4
    requires k <= 0 ==> '&' !in s
    requires k <= 1 ==> '<' !in s
    requires k <= 2 ==> '>' !in s
    requires k <= 3 ==> '"' !in s
    requires '\'' !in s
    ensures k <= 0 ==> ReplaceChar(s, '&', "&amp;") == s
    ensures k <= 1 ==> ReplaceChar(s, '<', "&lt;") == s
    ensures k <= 2 ==> ReplaceChar(s, '>', "&gt;") == s
    ensures k <= 3 ==> ReplaceChar(s, '"', "&quot;") == s
    ensures ReplaceChar(s, '\'', "&#39;") == s
  {
    if k <= 0 { ReplaceCharAbsent(s, '&', "&amp;"); }
    if k <= 1 { ReplaceCharAbsent(s, '<', "&lt;"); }
    if k <= 2 { ReplaceCharAbsent(s, '>', "&gt;"); }
    if k <= 3 { ReplaceCharAbsent(s, '"', "&quot;"); }
    ReplaceCharAbsent(s, '\'', "&#39;");
  }

  /** On one character the chain gives that character's escape: no later replace touches an earlier one's output. */
  lemma ReplaceChainChar(c: char)
    ensures ReplaceChain([c]) == EscapeChar(c)
  {
    if !IsSpecial(c) {
      UntouchedFrom([c], 0);
    } else if c == '&' {
      ReplaceCharSingle(c, '&', "&amp;");
      UntouchedFrom("&amp;", 1);
    } else if c == '<' {
      ReplaceCharAbsent([c], '&', "&amp;");
      ReplaceCharSingle(c, '<', "&lt;");
      UntouchedFrom("&lt;", 2);
    } else if c == '>' {
      ReplaceCharAbsent([c], '&', "&amp;");
      ReplaceCharAbsent([c], '<', "&lt;");
      ReplaceCharSingle(c, '>', "&gt;");
      UntouchedFrom("&gt;", 3);
    } else if c == '"' {
      ReplaceCharAbsent([c], '&', "&amp;");
      ReplaceCharAbsent([c], '<', "&lt;");
      ReplaceCharAbsent([c], '>', "&gt;");
      ReplaceCharSingle(c, '"', "&quot;");
      UntouchedFrom("&quot;", 4);
    } else {
      ReplaceCharAbsent([c], '&', "&amp;");
      ReplaceCharAbsent([c], '<', "&lt;");
      ReplaceCharAbsent([c], '>', "&gt;");
      ReplaceCharAbsent([c], '"', "&quot;");
      ReplaceCharSingle(c, '\'', "&#39;");
    }
  }

  /** Because '&' is replaced first, the chained replaces escape every character independently. */
  lemma {:induction false} ChainIsEscapeEach(s: string)
    ensures ReplaceChain(s) == EscapeEach(s)
    decreases |s|
  {
    if s != [] {
      assert s == [s[0]] + s[1..];
      ReplaceChainConcat([s[0]], s[1..]);
      ReplaceChainChar(s[0]);
      ChainIsEscapeEach(s[1..]);
    } else {
      assert ReplaceChar([], '&', "&amp;") == [];
    }
  }

  /** The special characters escapeHtml replaces. */
  predicate IsSpecial(c: char) {
    c == '&' || c == '<' || c == '>' || c == '"' || c == '\''
  }

  /** No escape contains '<', '>', '"' or '\''. */
  lemma EscapeCharSafe(c: char)
    ensures var e := EscapeChar(c);
      '<' !in e && '>' !in e && '"' !in e && '\'' !in e
  {
  }

  /** The escaped text contains no '<', '>', '"' or '\''. */
  lemma {:induction false} EscapedIsSafe(s: string)
    ensures var r := EscapeEach(s);
      '<' !in r && '>' !in r && '"' !in r && '\'' !in r
    decreases |s|
  {
    if s != [] {
      EscapedIsSafe(s[1..]);
      EscapeCharSafe(s[0]);
      var e, r := EscapeChar(s[0]), EscapeEach(s[1..]);
      assert forall x :: x in e + r ==> x in e || x in r;
    }
  }

  /** A string with none of the five special characters is returned unchanged. */
  lemma {:induction false} EscapePlain(s: string)
    requires forall i :: 0 <= i < |s| ==> !IsSpecial(s[i])
    ensures EscapeEach(s) == s
    decreases |s|
  {
    if s != [] {
      EscapePlain(s[1..]);
    }
  }

  // ---------------------------------------------------------------------------
  // Partner: decoding the five entities

  /** Reads the five entities back into their characters, leaving all other text as it is. */
  function Unescape(t: string): string
    decreases |t|
  {
    if t == [] then []
    else if t[0] != '&' then [t[0]] + Unescape(t[1..])
    else if StartsWith(t, "&amp;") then "&" + Unescape(t[5..])
    else if StartsWith(t, "&lt;") then "<" + Unescape(t[4..])
    else if StartsWith(t, "&gt;") then ">" + Unescape(t[4..])
    else if StartsWith(t, "&quot;") then "\"" + Unescape(t[6..])
    else if StartsWith(t, "&#39;") then "'" + Unescape(t[5..])
    else [t[0]] + Unescape(t[1..])
  }

  /** Decoding after an entity yields its character. */
  lemma UnescapeAmp(rest: string)
    ensures Unescape("&amp;" + rest) == "&" + Unescape(rest)
  {
    var t := "&amp;" + rest;
    assert t[0] == '&' && t[1] == 'a';
    assert t[..5] == "&amp;" && t[5..] == rest;
  }

  lemma UnescapeLt(rest: string)
    ensures Unescape("&lt;" + rest) == "<" + Unescape(rest)
  {
    var t := "&lt;" + rest;
    assert t[0] == '&' && t[1] == 'l';
    assert t[..4] == "&lt;" && t[4..] == rest;
  }

  lemma UnescapeGt(rest: string)
    ensures Unescape("&gt;" + rest) == ">" + Unescape(rest)
  {
    var t := "&gt;" + rest;
    assert t[0] == '&' && t[1] == 'g';
    assert t[..4] == "&gt;" && t[4..] == rest;
  }

  lemma UnescapeQuot(rest: string)
    ensures Unescape("&quot;" + rest) == "\"" + Unescape(rest)
  {
    var t := "&quot;" + rest;
    assert t[0] == '&' && t[1] == 'q';
    assert t[..6] == "&quot;" && t[6..] == rest;
  }

  lemma UnescapeApos(rest: string)
    ensures Unescape("&#39;" + rest) == "'" + Unescape(rest)
  {
    var t := "&#39;" + rest;
    assert t[0] == '&' && t[1] == '#';
    assert t[..5] == "&#39;" && t[5..] == rest;
  }

  /** Decoding after one character's escape yields that character. */
  lemma UnescapeChar(c: char, rest: string)
    ensures Unescape(EscapeChar(c) + rest) == [c] + Unescape(rest)
  {
    match c
    case '&' => UnescapeAmp(rest);
    case '<' => UnescapeLt(rest);
    case '>' => UnescapeGt(rest);
    case '"' => UnescapeQuot(rest);
    case '\'' => UnescapeApos(rest);
    case _ => assert ([c] + rest)[1..] == rest;
  }

  /** Escaping loses nothing: decoding the escaped text gives the original back. */
  lemma {:induction false} EscapeRoundTrip(s: string)
    ensures Unescape(EscapeEach(s)) == s
    decreases |s|
  {
    if s != [] {
      UnescapeChar(s[0], EscapeEach(s[1..]));
      EscapeRoundTrip(s[1..]);
    }
  }
}
