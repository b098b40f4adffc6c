/** Python's `html.escape(s)` (with its default `quote=True`). */
module HtmlEscape {
  import opened Text

  /** Characters that could open or close markup or an attribute value. */
  predicate IsMarkupChar(c: char) {
    c == '<' || c == '>' || c == '"' || c == '\''
  }

  function EscapeChar(c: char): (r: string)
    ensures |r| >= 1
    ensures forall i :: 0 <= i < |r| ==> !IsMarkupChar(r[i])
  {
    match c
    case '&' => "&amp;"
    case '<' => "&lt;"
    case '>' => "&gt;"
    case '"' => "&quot;"
    case '\'' => "&#x27;"
    case _ => [c]
  }

  /** The escaped text carries no character that could start or end markup
      or break out of a quoted attribute. */
  function Escape(s: string): (r: string)
    ensures |r| >= |s|
    ensures forall i :: 0 <= i < |r| ==> !IsMarkupChar(r[i])
  {
    if |s| == 0 then "" else EscapeChar(s[0]) + Escape(s[1..])
  }

  /** Decodes the five character references `Escape` produces; every other
      character is copied. */
  function Unescape(s: string): string
  {
    if |s| == 0 then ""
    else if StartsWith(s, "&amp;") then "&" + Unescape(s[5..])
    else if StartsWith(s, "&lt;") then "<" + Unescape(s[4..])
    else if StartsWith(s, "&gt;") then ">" + Unescape(s[4..])
    else if StartsWith(s, "&quot;") then "\"" + Unescape(s[6..])
    else if StartsWith(s, "&#x27;") then "'" + Unescape(s[6..])
    else [s[0]] + Unescape(s[1..])
  }

  lemma UnescapeChar(c: char, t: string)
    ensures Unescape(EscapeChar(c) + t) == [c] + Unescape(t)
  {
    match c
    case '&' => UnescapeAmp(t);
    case '<' => UnescapeLt(t);
    case '>' => UnescapeGt(t);
    case '"' => UnescapeSixChar("&quot;", c, t);
    case '\'' => UnescapeSixChar("&#x27;", c, t);
    case _ => UnescapeOther(c, t);
  }

  /** A text whose character `i` differs from the prefix's does not start
      with it. */
  lemma DiffersAt(s: string, prefix: string, i: nat)
    requires i < |prefix| && i < |s| && s[i] != prefix[i]
    ensures !StartsWith(s, prefix)
  {
  }

  lemma UnescapeOther(c: char, t: string)
    requires c != '&'
    ensures Unescape([c] + t) == [c] + Unescape(t)
  {
    var e := [c] + t;
    assert e[0] == c && e[1..] == t;
    assert !StartsWith(e, "&amp;") && !StartsWith(e, "&lt;") && !StartsWith(e, "&gt;");
    assert !StartsWith(e, "&quot;") && !StartsWith(e, "&#x27;");
  }

  lemma UnescapeAmp(t: string)
    ensures Unescape("&amp;" + t) == "&" + Unescape(t)
  {
    var e := "&amp;" + t;
    assert e[..5] == "&amp;" && e[5..] == t;
  }

  lemma UnescapeLt(t: string)
    ensures Unescape("&lt;" + t) == "<" + Unescape(t)
  {
    var e := "&lt;" + t;
    DiffersAt(e, "&amp;", 1);
    assert e[..4] == "&lt;" && e[4..] == t;
  }

  lemma UnescapeGt(t: string)
    ensures Unescape("&gt;" + t) == ">" + Unescape(t)
  {
    var e := "&gt;" + t;
    DiffersAt(e, "&amp;", 1);
    DiffersAt(e, "&lt;", 1);
    assert e[..4] == "&gt;" && e[4..] == t;
  }

  /** The two six-character references, `&quot;` and `&#x27;`. */
  lemma UnescapeSixChar(ref: string, c: char, t: string)
    requires (ref, c) in {("&quot;", '"'), ("&#x27;", '\'')}
    ensures Unescape(ref + t) == [c] + Unescape(t)
  {
    var e := ref + t;
    DiffersAt(e, "&amp;", 1);
    DiffersAt(e, "&lt;", 1);
    DiffersAt(e, "&gt;", 1);
    if c == '\'' {
      DiffersAt(e, "&quot;", 1);
    }
    assert e[..6] == ref && e[6..] == t;
  }

  /** Escaping loses no information: unescaping gives the text back. */
  lemma {:induction false} UnescapeEscape(s: string)
    ensures Unescape(Escape(s)) == s
  {
    if |s| > 0 {
      UnescapeEscape(s[1..]);
      UnescapeChar(s[0], Escape(s[1..]));
      assert [s[0]] + s[1..] == s;
    }
  }

  /** Text without `&` or markup characters passes through unchanged. */
  lemma {:induction false} EscapePlain(s: string)
    requires forall i :: 0 <= i < |s| ==> s[i] != '&' && !IsMarkupChar(s[i])
    ensures Escape(s) == s
  {
    if |s| > 0 {
      EscapePlain(s[1..]);
      assert [s[0]] + s[1..] == s;
    }
  }
}
