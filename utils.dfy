/**
 * `escapeHtml` (src/js/utils.js): trim, then five global single-character
 * replacements applied one after the other, `&` first.
 */
module Utils {
  import opened JsString

  /** `s.replace(/c/g, rep)` for a one-character pattern and a replacement without `$`. */
  function ReplaceAll(s: string, c: char, rep: string): (r: string)
    ensures c !in rep ==> c !in r
    ensures |rep| >= 1 ==> |r| >= |s|
  {
    if s == [] then [] else (if s[0] == c then rep else [s[0]]) + ReplaceAll(s[1..], c, rep)
  }

  /** The chain of five replacements in `escapeHtml`, `&` first; every replacement text is non-empty, so nothing shrinks. */
  function ReplaceSpecials(s: string): (r: string)
    ensures |r| >= |s|
  {
    ReplaceAll(
      ReplaceAll(
        ReplaceAll(
          ReplaceAll(
            ReplaceAll(s, '&', "&amp;"),
            '<', "&lt;"),
          '>', "&gt;"),
        '"', "&quot;"),
      '\'', "&#039;")
  }

  /**
   * `escapeHtml(unsafe)`: trim, then the replacement chain, which amounts to
   * escaping the trimmed text character by character.
   */
  function EscapeHtml(unsafe: string): (r: string)
    ensures r == Escaped(Trim(unsafe))
  {
    ReplaceSpecialsIsPerCharacter(Trim(unsafe));
    ReplaceSpecials(Trim(unsafe))
  }

  /** The five characters the escaper rewrites. */
  predicate IsSpecial(c: char) {
    c == '&' || c == '<' || c == '>' || c == '"' || c == '\''
  }

  /** The entity one character becomes; any other character stays itself. */
  function EscapeChar(c: char): (r: string)
    ensures IsSpecial(c) ==> |r| > 1 && r[0] == '&' && r[|r| - 1] == ';'
    ensures !IsSpecial(c) ==> r == [c]
    ensures '<' !in r && '>' !in r && '"' !in r && '\'' !in r
  {
    match c
    case '&' => "&amp;"
    case '<' => "&lt;"
    case '>' => "&gt;"
    case '"' => "&quot;"
    case '\'' => "&#039;"
    case _ => [c]
  }

  /**
   * The character-by-character escape: each character of `s` replaced by its
   * entity. The result holds none of `<`, `>`, `"`, `'` and is at least as long
   * as `s`.
   */
  function Escaped(s: string): (r: string)
    ensures '<' !in r && '>' !in r && '"' !in r && '\'' !in r
    ensures |r| >= |s|
    ensures r == [] <==> s == []
  {
    if s == [] then [] else EscapeChar(s[0]) + Escaped(s[1..])
  }

  /** `p` is a prefix of `s`. */
  predicate StartsWith(s: string, p: string) {
    |p| <= |s| && s[..|p|] == p
  }

  /**
   * The inverse of `Escaped`: at each `&` that begins one of the five
   * entities, the entity becomes its character; everything else is copied.
   */
  function Unescape(s: string): string
    decreases |s|
  {
    if s == [] then []
    else if s[0] != '&' then [s[0]] + Unescape(s[1..])
    else if StartsWith(s, "&amp;") then "&" + Unescape(s[5..])
    else if StartsWith(s, "&lt;") then "<" + Unescape(s[4..])
    else if StartsWith(s, "&gt;") then ">" + Unescape(s[4..])
    else if StartsWith(s, "&quot;") then "\"" + Unescape(s[6..])
    else if StartsWith(s, "&#039;") then "'" + Unescape(s[6..])
    else [s[0]] + Unescape(s[1..])
  }

  /** A replacement distributes over concatenation. */
  lemma {:induction false} ReplaceAllAppend(a: string, b: string, c: char, rep: string)
    ensures ReplaceAll(a + b, c, rep) == ReplaceAll(a, c, rep) + ReplaceAll(b, c, rep)
    decreases |a|
  {
    if a == [] {
      assert a + b == b;
    } else {
      assert (a + b)[0] == a[0] && (a + b)[1..] == a[1..] + b;
      ReplaceAllAppend(a[1..], b, c, rep);
    }
  }

  /** A replacement whose pattern does not occur changes nothing. */
  lemma {:induction false} ReplaceAllAbsent(s: string, c: char, rep: string)
    requires c !in s
    ensures ReplaceAll(s, c, rep) == s
    decreases |s|
  {
    if s != [] {
      assert s[0] != c;
      ReplaceAllAbsent(s[1..], c, rep);
    }
  }

  /** A replacement on a one-character string. */
  lemma ReplaceAllSingle(x: char, c: char, rep: string)
    ensures ReplaceAll([x], c, rep) == if x == c then rep else [x]
  {
    assert [x][1..] == [];
  }

  /** The chain distributes over concatenation. */
  lemma ReplaceSpecialsAppend(a: string, b: string)
    ensures ReplaceSpecials(a + b) == ReplaceSpecials(a) + ReplaceSpecials(b)
  {
    var a1, b1 := ReplaceAll(a, '&', "&amp;"), ReplaceAll(b, '&', "&amp;");
    ReplaceAllAppend(a, b, '&', "&amp;");
    var a2, b2 := ReplaceAll(a1, '<', "&lt;"), ReplaceAll(b1, '<', "&lt;");
    ReplaceAllAppend(a1, b1, '<', "&lt;");
    var a3, b3 := ReplaceAll(a2, '>', "&gt;"), ReplaceAll(b2, '>', "&gt;");
    ReplaceAllAppend(a2, b2, '>', "&gt;");
    var a4, b4 := ReplaceAll(a3, '"', "&quot;"), ReplaceAll(b3, '"', "&quot;");
    ReplaceAllAppend(a3, b3, '"', "&quot;");
    ReplaceAllAppend(a4, b4, '\'', "&#039;");
  }

  /** On one character, the chain gives that character's entity: no entity is escaped twice. */
  lemma ReplaceSpecialsChar(c: char)
    ensures ReplaceSpecials([c]) == EscapeChar(c)
  {
    ReplaceAllSingle(c, '&', "&amp;");
    if c == '&' {
      EntityUntouched("&amp;");
    } else {
      ReplaceAllSingle(c, '<', "&lt;");
      if c == '<' {
        EntityUntouched("&lt;");
      } else {
        ReplaceAllSingle(c, '>', "&gt;");
        if c == '>' {
          EntityUntouched("&gt;");
        } else {
          ReplaceAllSingle(c, '"', "&quot;");
          if c == '"' {
            EntityUntouched("&quot;");
          } else {
            ReplaceAllSingle(c, '\'', "&#039;");
          }
        }
      }
    }
  }

  /** A string without `<`, `>`, `"`, `'` is left alone by the last four replacements. */
  lemma EntityUntouched(e: string)
    requires '<' !in e && '>' !in e && '"' !in e && '\'' !in e
    ensures ReplaceAll(e, '<', "&lt;") == e
    ensures ReplaceAll(e, '>', "&gt;") == e
    ensures ReplaceAll(e, '"', "&quot;") == e
    ensures ReplaceAll(e, '\'', "&#039;") == e
  {
    ReplaceAllAbsent(e, '<', "&lt;");
    ReplaceAllAbsent(e, '>', "&gt;");
    ReplaceAllAbsent(e, '"', "&quot;");
    ReplaceAllAbsent(e, '\'', "&#039;");
  }

  /** The replacement chain equals the character-by-character escape. */
  lemma {:induction false} ReplaceSpecialsIsPerCharacter(s: string)
    ensures ReplaceSpecials(s) == Escaped(s)
    decreases |s|
  {
    if s == [] {
    } else {
      assert s == [s[0]] + s[1..];
      ReplaceSpecialsAppend([s[0]], s[1..]);
      ReplaceSpecialsChar(s[0]);
      ReplaceSpecialsIsPerCharacter(s[1..]);
    }
  }

  /**
   * `escapeHtml` trims, then escapes character by character: `&`, `<`, `>`,
   * `"`, `'` become `&amp;`, `&lt;`, `&gt;`, `&quot;`, `&#039;`.
   */
  lemma EscapeHtmlIsPerCharacter(unsafe: string)
    ensures EscapeHtml(unsafe) == Escaped(Trim(unsafe))
  {
    ReplaceSpecialsIsPerCharacter(Trim(unsafe));
  }

  /** Escaping is a homomorphism on concatenation: other characters are copied in order. */
  lemma {:induction false} EscapedAppend(a: string, b: string)
    ensures Escaped(a + b) == Escaped(a) + Escaped(b)
    decreases |a|
  {
    if a == [] {
      assert a + b == b;
    } else {
      assert (a + b)[0] == a[0] && (a + b)[1..] == a[1..] + b;
      EscapedAppend(a[1..], b);
    }
  }

  /** A string without the five special characters is its own escape. */
  lemma {:induction false} EscapedNoSpecials(s: string)
    requires forall k :: 0 <= k < |s| ==> !IsSpecial(s[k])
    ensures Escaped(s) == s
    decreases |s|
  {
    if s != [] {
      EscapedNoSpecials(s[1..]);
    }
  }

  /** Unescaping reads back one escaped character. */
  lemma UnescapeStep(c: char, rest: string)
    ensures Unescape(EscapeChar(c) + rest) == [c] + Unescape(rest)
  {
    var e := EscapeChar(c);
    var s := e + rest;
    assert s[..|e|] == e && s[|e|..] == rest;
    if !IsSpecial(c) {
      assert s[0] == c && s[1..] == rest;
    } else if c == '&' {
      assert StartsWith(s, "&amp;");
    } else if c == '<' {
      assert s[1] == 'l';
      assert StartsWith(s, "&lt;");
    } else if c == '>' {
      assert s[1] == 'g';
      assert !StartsWith(s, "&lt;");
      assert StartsWith(s, "&gt;");
    } else if c == '"' {
      assert s[1] == 'q';
      assert !StartsWith(s, "&lt;") && !StartsWith(s, "&gt;");
      assert StartsWith(s, "&quot;");
    } else {
      assert s[1] == '#';
      assert !StartsWith(s, "&lt;") && !StartsWith(s, "&gt;") && !StartsWith(s, "&quot;");
      assert StartsWith(s, "&#039;");
    }
  }

  /** Unescaping undoes escaping. */
  lemma {:induction false} UnescapeEscaped(s: string)
    ensures Unescape(Escaped(s)) == s
    decreases |s|
  {
    if s != [] {
      UnescapeStep(s[0], Escaped(s[1..]));
      UnescapeEscaped(s[1..]);
      assert s == [s[0]] + s[1..];
    }
  }

  /** The escape of a non-empty string starts with its first character or `&`, ends with its last or `;`. */
  lemma EscapedEnds(t: string)
    requires t != []
    ensures Escaped(t)[0] == (if IsSpecial(t[0]) then '&' else t[0])
    ensures Escaped(t)[|Escaped(t)| - 1] == (if IsSpecial(t[|t| - 1]) then ';' else t[|t| - 1])
  {
    var n := |t| - 1;
    EscapedAppend(t[..n], [t[n]]);
    assert t == t[..n] + [t[n]];
    assert Escaped([t[n]]) == EscapeChar(t[n]);
  }

  /**
   * The output of `escapeHtml` never contains `<`, `>`, `"` or `'`, and is at
   * least as long as the trimmed input.
   */
  lemma EscapeHtmlSafe(unsafe: string)
    ensures '<' !in EscapeHtml(unsafe) && '>' !in EscapeHtml(unsafe)
    ensures '"' !in EscapeHtml(unsafe) && '\'' !in EscapeHtml(unsafe)
    ensures |EscapeHtml(unsafe)| >= |Trim(unsafe)|
  {
    EscapeHtmlIsPerCharacter(unsafe);
  }

  /** Unescaping the output of `escapeHtml` gives back the trimmed input. */
  lemma EscapeHtmlRoundTrip(unsafe: string)
    ensures Unescape(EscapeHtml(unsafe)) == Trim(unsafe)
  {
    EscapeHtmlIsPerCharacter(unsafe);
    UnescapeEscaped(Trim(unsafe));
  }

  /**
   * Leading and trailing whitespace is removed before escaping: the output
   * neither starts nor ends with whitespace.
   */
  lemma EscapeHtmlTrimmed(unsafe: string)
    ensures EscapeHtml(unsafe) != [] ==>
              !IsWhitespace(EscapeHtml(unsafe)[0]) &&
              !IsWhitespace(EscapeHtml(unsafe)[|EscapeHtml(unsafe)| - 1])
  {
    EscapeHtmlIsPerCharacter(unsafe);
    EscapedEndsNotWhitespace(Trim(unsafe));
  }

  /** The output of `escapeHtml` is empty exactly when the input is all whitespace. */
  lemma EscapeHtmlEmpty(unsafe: string)
    ensures EscapeHtml(unsafe) == [] <==> forall k :: 0 <= k < |unsafe| ==> IsWhitespace(unsafe[k])
  {
    EscapeHtmlIsPerCharacter(unsafe);
    TrimEmpty(unsafe);
  }

  /** The escape of a string that neither starts nor ends with whitespace does neither. */
  lemma EscapedEndsNotWhitespace(t: string)
    requires t != [] ==> !IsWhitespace(t[0]) && !IsWhitespace(t[|t| - 1])
    ensures Escaped(t) != [] ==> !IsWhitespace(Escaped(t)[0]) && !IsWhitespace(Escaped(t)[|Escaped(t)| - 1])
  {
    if t != [] {
      EscapedEnds(t);
      assert !IsWhitespace('&') && !IsWhitespace(';');
    }
  }

  /** A trimmed input without the five special characters comes back unchanged. */
  lemma EscapeHtmlPlainText(unsafe: string)
    requires forall k :: 0 <= k < |unsafe| ==> !IsSpecial(unsafe[k])
    requires Trim(unsafe) == unsafe
    ensures EscapeHtml(unsafe) == unsafe
  {
    EscapeHtmlIsPerCharacter(unsafe);
    EscapedNoSpecials(unsafe);
  }
}
