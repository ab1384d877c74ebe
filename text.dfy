/**
 * The two string transforms the views apply themselves: `str.lower()` on the
 * lexer name, and Django's `escape` on content that could not be highlighted.
 */
module Text {

  /** `str.lower()` on one character, for the ASCII letters. */
  function LowerChar(c: char): char
  {
    if 'A' <= c <= 'Z' then (c as int + 32) as char else c
  }

  predicate IsUpper(c: char)
  {
    'A' <= c <= 'Z'
  }

  /**
   * `str.lower()`: the length is kept, no capital is left, each capital
   * becomes its small letter, and every other character stays as it is.
   */
  function Lower(s: string): (r: string)
    ensures |r| == |s|
    ensures forall i :: 0 <= i < |r| ==> !IsUpper(r[i])
    ensures forall i :: 0 <= i < |s| && IsUpper(s[i]) ==> r[i] as int == s[i] as int + 32
    ensures forall i :: 0 <= i < |s| && !IsUpper(s[i]) ==> r[i] == s[i]
  {
    seq(|s|, i requires 0 <= i < |s| => LowerChar(s[i]))
  }

  /** Lower-casing an already lower-cased name changes nothing. */
  lemma LowerIdempotent(s: string)
    ensures Lower(Lower(s)) == Lower(s)
  {
  }

  /** The entity Django's `escape` writes for one character. */
  function EscapeChar(c: char): string
  {
    match c
    case '&' => "&amp;"
    case '<' => "&lt;"
    case '>' => "&gt;"
    case '"' => "&quot;"
    case '\'' => "&#39;"
    case _ => [c]
  }

  /** The five characters `escape` replaces. */
  predicate Special(c: char)
  {
    c == '&' || Markup(c)
  }

  /** Django's `escape`: each character replaced by its entity, in order; text without special characters is left as it is. */
  function Escape(s: string): (r: string)
    ensures |r| >= |s|
    ensures (forall i :: 0 <= i < |s| ==> !Special(s[i])) ==> r == s
  {
    if s == [] then [] else EscapeChar(s[0]) + Escape(s[1..])
  }

  /** The characters that would open or close markup in an HTML page. */
  predicate Markup(c: char)
  {
    c == '<' || c == '>' || c == '"' || c == '\''
  }

  predicate StartsWith(s: string, p: string)
  {
    |p| <= |s| && s[..|p|] == p
  }

  /** Inverse of `Escape`: turns the five entities back into characters. */
  function Unescape(s: string): string
    decreases |s|
  {
    if s == [] then []
    else if StartsWith(s, "&amp;") then "&" + Unescape(s[5..])
    else if StartsWith(s, "&lt;") then "<" + Unescape(s[4..])
    else if StartsWith(s, "&gt;") then ">" + Unescape(s[4..])
    else if StartsWith(s, "&quot;") then "\"" + Unescape(s[6..])
    else if StartsWith(s, "&#39;") then "'" + Unescape(s[5..])
    else [s[0]] + Unescape(s[1..])
  }

  /** Escaped text holds no character that could form markup. */
  lemma {:induction false} EscapeHasNoMarkup(s: string)
    ensures forall c :: c in Escape(s) ==> !Markup(c)
  {
    if s != [] {
      EscapeHasNoMarkup(s[1..]);
    }
  }

  lemma PrefixAt(s: string, p: string, i: nat)
    requires StartsWith(s, p) && i < |p|
    ensures s[i] == p[i]
  {
  }

  lemma UnescapeEscapeChar(c: char, t: string)
    ensures Unescape(EscapeChar(c) + t) == [c] + Unescape(t)
  {
    var e := EscapeChar(c);
    var x := e + t;
    assert x[..|e|] == e && x[|e|..] == t;
    assert x[0] == e[0];
    if c != '&' && c != '<' && c != '>' && c != '"' && c != '\'' {
      if StartsWith(x, "&amp;") { PrefixAt(x, "&amp;", 0); }
      if StartsWith(x, "&lt;") { PrefixAt(x, "&lt;", 0); }
      if StartsWith(x, "&gt;") { PrefixAt(x, "&gt;", 0); }
      if StartsWith(x, "&quot;") { PrefixAt(x, "&quot;", 0); }
      if StartsWith(x, "&#39;") { PrefixAt(x, "&#39;", 0); }
    } else if c != '&' {
      assert x[1] == e[1];
      if StartsWith(x, "&amp;") { PrefixAt(x, "&amp;", 1); }
      if c != '<' {
        if StartsWith(x, "&lt;") { PrefixAt(x, "&lt;", 1); }
        if c != '>' {
          if StartsWith(x, "&gt;") { PrefixAt(x, "&gt;", 1); }
          if c != '"' {
            if StartsWith(x, "&quot;") { PrefixAt(x, "&quot;", 1); }
          }
        }
      }
    }
  }

  /** Escaping loses nothing: the escaped text determines the content. */
  lemma {:induction false} UnescapeEscape(s: string)
    ensures Unescape(Escape(s)) == s
  {
    if s != [] {
      UnescapeEscapeChar(s[0], Escape(s[1..]));
      UnescapeEscape(s[1..]);
    }
  }
}
