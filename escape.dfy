/// Entity escaping as the two generators do it: the three global
/// replacements of rss-generator.js (escape at render time, unescape of the
/// captured feed text), PHP's `htmlspecialchars`, and a reference decoder of
/// the XML entities those escapers produce.
module Escape {
  import opened Text

  /** Global, left-to-right, non-overlapping replacement of the literal
      `pat` by `rep`, as `s.replace(/pat/g, rep)` does. */
  function ReplaceAll(s: string, pat: string, rep: string): string
    requires pat != []
    decreases |s|
  {
    if |s| < |pat| then s
    else if s[..|pat|] == pat then rep + ReplaceAll(s[|pat|..], pat, rep)
    else [s[0]] + ReplaceAll(s[1..], pat, rep)
  }

  /** `.replace(/&/g, '&amp;').replace(/</g, '&lt;').replace(/>/g, '&gt;')`,
      applied to an item's title and description in rss-generator.js. */
  function JsEscape(s: string): string
  {
    ReplaceAll(ReplaceAll(ReplaceAll(s, "&", "&amp;"), "<", "&lt;"), ">", "&gt;")
  }

  /** `.replace(/&lt;/g, '<').replace(/&gt;/g, '>').replace(/&amp;/g, '&')`,
      applied to the captured title of a feed item in rss-generator.js. */
  function JsUnescape(s: string): string
  {
    ReplaceAll(ReplaceAll(ReplaceAll(s, "&lt;", "<"), "&gt;", ">"), "&amp;", "&")
  }

  /** PHP's `htmlspecialchars` with its default flags (`ENT_QUOTES |
      ENT_SUBSTITUTE | ENT_HTML401`, double encoding on). */
  function HtmlSpecialChars(s: string): string
  {
    if s == [] then [] else HtmlToken(s[0]) + HtmlSpecialChars(s[1..])
  }

  /** The replacement `htmlspecialchars` makes for one character. */
  function HtmlToken(c: char): string
  {
    if c == '&' then "&amp;"
    else if c == '<' then "&lt;"
    else if c == '>' then "&gt;"
    else if c == '"' then "&quot;"
    else if c == '\'' then "&#039;"
    else [c]
  }

  predicate StartsWith(s: string, p: string)
  {
    |p| <= |s| && s[..|p|] == p
  }

  /** Reference reading of the character data: an XML reader's decoding of
      the predefined entities and of `&#039;`; any other `&` stays as it is. */
  function DecodeXml(s: string): string
    decreases |s|
  {
    if s == [] then []
    else if StartsWith(s, "&amp;") then "&" + DecodeXml(s[5..])
    else if StartsWith(s, "&lt;") then "<" + DecodeXml(s[4..])
    else if StartsWith(s, "&gt;") then ">" + DecodeXml(s[4..])
    else if StartsWith(s, "&quot;") then "\"" + DecodeXml(s[6..])
    else if StartsWith(s, "&apos;") then "'" + DecodeXml(s[6..])
    else if StartsWith(s, "&#039;") then "'" + DecodeXml(s[6..])
    else [s[0]] + DecodeXml(s[1..])
  }

  /** Where the first character of `pat` never occurs there is nothing to replace. */
  lemma {:induction false} ReplaceAllAbsent(s: string, pat: string, rep: string)
    requires pat != [] && pat[0] !in s
    ensures ReplaceAll(s, pat, rep) == s
    decreases |s|
  {
    if |s| >= |pat| {
      assert s[..|pat|][0] == s[0];
      ReplaceAllAbsent(s[1..], pat, rep);
    }
  }

  /** Text without `&` holds no entity, and unescaping leaves it as it is. */
  lemma JsUnescapePlain(s: string)
    requires '&' !in s
    ensures JsUnescape(s) == s
  {
    ReplaceAllAbsent(s, "&lt;", "<");
    ReplaceAllAbsent(s, "&gt;", ">");
    ReplaceAllAbsent(s, "&amp;", "&");
  }

  // ---------------------------------------------------------------------
  // Character-wise view of the three replacement passes

  /** Replacing every `c` by `rep`, one character at a time. */
  function ReplaceChar(s: string, c: char, rep: string): string
  {
    if s == [] then [] else (if s[0] == c then rep else [s[0]]) + ReplaceChar(s[1..], c, rep)
  }

  /** Escaping `&` always, and `<`, `>` when asked: the state of the text
      between the passes of the escaper and of the unescaper. */
  function EscapeChars(s: string, lt: bool, gt: bool): string
  {
    if s == [] then []
    else
      (if s[0] == '&' then "&amp;"
       else if s[0] == '<' && lt then "&lt;"
       else if s[0] == '>' && gt then "&gt;"
       else [s[0]])
      + EscapeChars(s[1..], lt, gt)
  }

  lemma {:induction false} ReplaceAllOneChar(s: string, c: char, rep: string)
    ensures ReplaceAll(s, [c], rep) == ReplaceChar(s, c, rep)
    decreases |s|
  {
    if s != [] {
      assert s[..1] == [s[0]];
      ReplaceAllOneChar(s[1..], c, rep);
    }
  }

  lemma {:induction false} ReplaceCharAppend(a: string, b: string, c: char, rep: string)
    ensures ReplaceChar(a + b, c, rep) == ReplaceChar(a, c, rep) + ReplaceChar(b, c, rep)
    decreases |a|
  {
    if a != [] {
      var hd := if a[0] == c then rep else [a[0]];
      assert (a + b)[0] == a[0] && (a + b)[1..] == a[1..] + b;
      assert ReplaceChar(a + b, c, rep) == hd + ReplaceChar(a[1..] + b, c, rep);
      ReplaceCharAppend(a[1..], b, c, rep);
      assert ReplaceChar(a, c, rep) == hd + ReplaceChar(a[1..], c, rep);
    } else {
      assert a + b == b;
    }
  }

  lemma {:induction false} ReplaceCharAbsent(s: string, c: char, rep: string)
    requires c !in s
    ensures ReplaceChar(s, c, rep) == s
    decreases |s|
  {
    if s != [] {
      ReplaceCharAbsent(s[1..], c, rep);
    }
  }

  /** The three passes of the escaper amount to escaping character by character. */
  lemma {:induction false} JsEscapeCharwise(s: string)
    ensures JsEscape(s) == EscapeChars(s, true, true)
    decreases |s|
  {
    var s1 := ReplaceChar(s, '&', "&amp;");
    var s2 := ReplaceChar(s1, '<', "&lt;");
    ReplaceAllOneChar(s, '&', "&amp;");
    ReplaceAllOneChar(s1, '<', "&lt;");
    ReplaceAllOneChar(s2, '>', "&gt;");
    CharwiseThreePasses(s);
  }

  lemma {:induction false} CharwiseThreePasses(s: string)
    ensures ReplaceChar(ReplaceChar(ReplaceChar(s, '&', "&amp;"), '<', "&lt;"), '>', "&gt;")
            == EscapeChars(s, true, true)
    decreases |s|
  {
    if s != [] {
      var x := s[0];
      var head1 := if x == '&' then "&amp;" else [x];
      var tail1 := ReplaceChar(s[1..], '&', "&amp;");
      assert ReplaceChar(s, '&', "&amp;") == head1 + tail1;
      ReplaceCharAppend(head1, tail1, '<', "&lt;");
      var head2 := ReplaceChar(head1, '<', "&lt;");
      var tail2 := ReplaceChar(tail1, '<', "&lt;");
      ReplaceCharAppend(head2, tail2, '>', "&gt;");
      var head3 := ReplaceChar(head2, '>', "&gt;");
      if x == '&' {
        ReplaceCharAbsent("&amp;", '<', "&lt;");
        ReplaceCharAbsent("&amp;", '>', "&gt;");
      } else if x == '<' {
        assert head2 == "&lt;";
        ReplaceCharAbsent("&lt;", '>', "&gt;");
      } else {
        assert head2 == [x];
      }
      assert head3 == (if x == '&' then "&amp;" else if x == '<' then "&lt;" else if x == '>' then "&gt;" else [x]);
      CharwiseThreePasses(s[1..]);
    }
  }

  // ---------------------------------------------------------------------
  // How a replacement pass walks over an escaped token

  /** A token that cannot start an occurrence of `pat` at its first position,
      and holds no other start of one, passes through the replacement unchanged. */
  lemma {:induction false} ReplaceAllSkips(t: string, rest: string, pat: string, rep: string)
    requires |pat| >= 2
    requires forall i :: 0 < i < |t| ==> t[i] != pat[0]
    requires t != [] ==> t[0] != pat[0] || (|t| >= 2 && t[1] != pat[1])
    ensures ReplaceAll(t + rest, pat, rep) == t + ReplaceAll(rest, pat, rep)
    decreases |t|
  {
    if t == [] {
      assert t + rest == rest;
    } else {
      var s := t + rest;
      if |s| < |pat| {
        assert ReplaceAll(rest, pat, rep) == rest;
      } else {
        assert s[..|pat|] != pat by {
          if t[0] != pat[0] {
            assert s[0] != pat[0];
          } else {
            assert s[1] != pat[1];
          }
        }
        assert s[1..] == t[1..] + rest;
        assert ReplaceAll(s, pat, rep) == [t[0]] + ReplaceAll(t[1..] + rest, pat, rep);
        ReplaceAllSkips(t[1..], rest, pat, rep);
        assert t == [t[0]] + t[1..];
      }
    }
  }

  lemma ReplaceAllAtPattern(rest: string, pat: string, rep: string)
    requires pat != []
    ensures ReplaceAll(pat + rest, pat, rep) == rep + ReplaceAll(rest, pat, rep)
  {
    assert (pat + rest)[..|pat|] == pat;
    assert (pat + rest)[|pat|..] == rest;
  }

  /** The passes of the unescaper undo the passes of the escaper, one class
      of character at a time; each replaces exactly the tokens its own class produced. */
  lemma {:induction false} UnescapeLt(s: string, gt: bool)
    ensures ReplaceAll(EscapeChars(s, true, gt), "&lt;", "<") == EscapeChars(s, false, gt)
    decreases |s|
  {
    if s != [] {
      var x := s[0];
      var rest := EscapeChars(s[1..], true, gt);
      UnescapeLt(s[1..], gt);
      if x == '<' {
        ReplaceAllAtPattern(rest, "&lt;", "<");
      } else if x == '&' {
        ReplaceAllSkips("&amp;", rest, "&lt;", "<");
      } else if x == '>' && gt {
        ReplaceAllSkips("&gt;", rest, "&lt;", "<");
      } else {
        ReplaceAllSkips([x], rest, "&lt;", "<");
      }
    }
  }

  lemma {:induction false} UnescapeGt(s: string)
    ensures ReplaceAll(EscapeChars(s, false, true), "&gt;", ">") == EscapeChars(s, false, false)
    decreases |s|
  {
    if s != [] {
      var x := s[0];
      var rest := EscapeChars(s[1..], false, true);
      UnescapeGt(s[1..]);
      if x == '>' {
        ReplaceAllAtPattern(rest, "&gt;", ">");
      } else if x == '&' {
        ReplaceAllSkips("&amp;", rest, "&gt;", ">");
      } else {
        ReplaceAllSkips([x], rest, "&gt;", ">");
      }
    }
  }

  lemma {:induction false} UnescapeAmp(s: string)
    ensures ReplaceAll(EscapeChars(s, false, false), "&amp;", "&") == s
    decreases |s|
  {
    if s != [] {
      var x := s[0];
      var rest := EscapeChars(s[1..], false, false);
      UnescapeAmp(s[1..]);
      if x == '&' {
        ReplaceAllAtPattern(rest, "&amp;", "&");
      } else {
        ReplaceAllSkips([x], rest, "&amp;", "&");
      }
    }
  }

  /** Unescaping what the renderer escaped gives back the original text:
      the `&lt;`, `&gt;`, `&amp;` passes invert the `&`, `<`, `>` passes
      because `&` is escaped first and unescaped last. */
  lemma JsEscapeRoundTrip(s: string)
    ensures JsUnescape(JsEscape(s)) == s
  {
    JsEscapeCharwise(s);
    UnescapeLt(s, true);
    UnescapeGt(s);
    UnescapeAmp(s);
  }

  lemma {:induction false} EscapeCharsNoMarkup(s: string)
    ensures '<' !in EscapeChars(s, true, true) && '>' !in EscapeChars(s, true, true)
    decreases |s|
  {
    if s != [] {
      EscapeCharsNoMarkup(s[1..]);
    }
  }

  /** Escaped text holds no raw `<` or `>`, so it cannot open or close an element. */
  lemma JsEscapeNoMarkup(s: string)
    ensures '<' !in JsEscape(s) && '>' !in JsEscape(s)
  {
    JsEscapeCharwise(s);
    EscapeCharsNoMarkup(s);
  }

  /** An XML reader reads back the text the renderer escaped. */
  lemma {:induction false} JsEscapeDecodes(s: string)
    ensures DecodeXml(JsEscape(s)) == s
  {
    JsEscapeCharwise(s);
    EscapeCharsDecode(s);
  }

  lemma {:induction false} EscapeCharsDecode(s: string)
    ensures DecodeXml(EscapeChars(s, true, true)) == s
    decreases |s|
  {
    if s != [] {
      var rest := EscapeChars(s[1..], true, true);
      EscapeCharsDecode(s[1..]);
      if s[0] == '&' || s[0] == '<' || s[0] == '>' {
        assert EscapeChars(s, true, true) == HtmlToken(s[0]) + rest;
        DecodeToken(s[0], rest);
      } else {
        assert EscapeChars(s, true, true) == [s[0]] + rest;
        DecodePlain(s[0], rest);
      }
    }
  }

  lemma DecodePlain(x: char, rest: string)
    requires x != '&'
    ensures DecodeXml([x] + rest) == [x] + DecodeXml(rest)
  {
    var s := [x] + rest;
    assert s[0] == x && s[1..] == rest;
    forall p | p != [] && p[0] == '&' ensures !StartsWith(s, p) {
      if |p| <= |s| {
        assert s[..|p|][0] == x;
      }
    }
    assert "&amp;"[0] == '&' && "&lt;"[0] == '&' && "&gt;"[0] == '&';
    assert "&quot;"[0] == '&' && "&apos;"[0] == '&' && "&#039;"[0] == '&';
  }

  /** Decoding one escaped character followed by anything. */
  lemma DecodeToken(x: char, rest: string)
    ensures DecodeXml(HtmlToken(x) + rest) == [x] + DecodeXml(rest)
  {
    if x == '&' {
      DecodeAmp(rest);
    } else if x == '<' {
      DecodeLt(rest);
    } else if x == '>' {
      DecodeGt(rest);
    } else if x == '"' {
      DecodeQuot(rest);
    } else if x == '\'' {
      DecodeApos(rest);
    } else {
      DecodePlain(x, rest);
    }
  }

  lemma DecodeAmp(rest: string)
    ensures DecodeXml("&amp;" + rest) == "&" + DecodeXml(rest)
  {
    var s := "&amp;" + rest;
    assert StartsWith(s, "&amp;") by { assert s[..5] == "&amp;"; }
    assert s[5..] == rest;
  }

  lemma DecodeLt(rest: string)
    ensures DecodeXml("&lt;" + rest) == "<" + DecodeXml(rest)
  {
    var s := "&lt;" + rest;
    assert !StartsWith(s, "&amp;") by { assert s[1] == 'l'; }
    assert StartsWith(s, "&lt;") by { assert s[..4] == "&lt;"; }
    assert s[4..] == rest;
  }

  lemma DecodeGt(rest: string)
    ensures DecodeXml("&gt;" + rest) == ">" + DecodeXml(rest)
  {
    var s := "&gt;" + rest;
    assert !StartsWith(s, "&amp;") && !StartsWith(s, "&lt;") by { assert s[1] == 'g'; }
    assert StartsWith(s, "&gt;") by { assert s[..4] == "&gt;"; }
    assert s[4..] == rest;
  }

  lemma DecodeQuot(rest: string)
    ensures DecodeXml("&quot;" + rest) == "\"" + DecodeXml(rest)
  {
    var s := "&quot;" + rest;
    assert !StartsWith(s, "&amp;") && !StartsWith(s, "&lt;") && !StartsWith(s, "&gt;") by { assert s[1] == 'q'; }
    assert StartsWith(s, "&quot;") by { assert s[..6] == "&quot;"; }
    assert s[6..] == rest;
  }

  lemma DecodeApos(rest: string)
    ensures DecodeXml("&#039;" + rest) == "'" + DecodeXml(rest)
  {
    var s := "&#039;" + rest;
    assert !StartsWith(s, "&amp;") && !StartsWith(s, "&lt;") && !StartsWith(s, "&gt;")
      && !StartsWith(s, "&quot;") && !StartsWith(s, "&apos;") by { assert s[1] == '#'; }
    assert StartsWith(s, "&#039;") by { assert s[..6] == "&#039;"; }
    assert s[6..] == rest;
  }

  /** An XML reader reads back every string PHP's `htmlspecialchars` escaped. */
  lemma {:induction false} HtmlSpecialCharsDecodes(s: string)
    ensures DecodeXml(HtmlSpecialChars(s)) == s
    decreases |s|
  {
    if s != [] {
      HtmlSpecialCharsDecodes(s[1..]);
      DecodeToken(s[0], HtmlSpecialChars(s[1..]));
    }
  }

  /** `htmlspecialchars` leaves no raw `<`, `>` or quote. */
  lemma {:induction false} HtmlSpecialCharsNoMarkup(s: string)
    ensures '<' !in HtmlSpecialChars(s) && '>' !in HtmlSpecialChars(s)
    ensures '"' !in HtmlSpecialChars(s) && '\'' !in HtmlSpecialChars(s)
    decreases |s|
  {
    if s != [] {
      HtmlSpecialCharsNoMarkup(s[1..]);
      TokenNoMarkup(s[0]);
      NotInConcat(HtmlToken(s[0]), HtmlSpecialChars(s[1..]));
    }
  }

  lemma TokenNoMarkup(c: char)
    ensures '<' !in HtmlToken(c) && '>' !in HtmlToken(c)
    ensures '"' !in HtmlToken(c) && '\'' !in HtmlToken(c)
  {
  }

  lemma NotInConcat(x: string, y: string)
    ensures forall c :: c !in x && c !in y ==> c !in x + y
  {
  }

  /** The two renderers escape alike exactly when no quote is involved:
      on quote-free text `htmlspecialchars` and the JavaScript passes agree,
      and on text with a quote they differ. */
  lemma {:induction false} EscapersAgreeWithoutQuotes(s: string)
    ensures ('"' !in s && '\'' !in s) <==> HtmlSpecialChars(s) == JsEscape(s)
    decreases |s|
  {
    JsEscapeCharwise(s);
    if s != [] {
      EscapersAgreeWithoutQuotes(s[1..]);
      JsEscapeCharwise(s[1..]);
      var x := s[0];
      var h := HtmlSpecialChars(s[1..]);
      var j := EscapeChars(s[1..], true, true);
      if x == '"' || x == '\'' {
        var hs := HtmlSpecialChars(s);
        var js := EscapeChars(s, true, true);
        assert hs[0] == '&' && js[0] == x;
      } else {
        var tok := if x == '&' then "&amp;" else if x == '<' then "&lt;" else if x == '>' then "&gt;" else [x];
        assert HtmlSpecialChars(s) == tok + h;
        assert EscapeChars(s, true, true) == tok + j;
        assert ('"' in s || '\'' in s) <==> ('"' in s[1..] || '\'' in s[1..]) by {
          assert s == [x] + s[1..];
        }
        if tok + h == tok + j {
          assert h == (tok + h)[|tok|..];
          assert j == (tok + j)[|tok|..];
        }
      }
    }
  }

  // ---------------------------------------------------------------------
  // Reading an element back

  /** The text of the element whose content starts at `p`: everything up to
      the next `<`, as a reader of the document takes it. */
  function ElementText(doc: string, p: nat): string
    requires p <= |doc|
  {
    doc[p..p + IndexOf(doc[p..], '<')]
  }

  /** Text without `<`, written between `prefix` and a tag, is read back whole. */
  lemma ReadField(prefix: string, x: string, rest: string)
    requires '<' !in x && rest != [] && rest[0] == '<'
    ensures ElementText(prefix + x + rest, |prefix|) == x
    ensures IndexOf((prefix + x + rest)[|prefix|..], '<') == |x|
  {
    var doc := prefix + x + rest;
    var d := doc[|prefix|..];
    assert d == x + rest;
    assert d[|x|] == '<';
    forall k | 0 <= k < |x| ensures d[k] != '<' {
      assert d[k] == x[k];
    }
    assert IndexOf(d, '<') == |x|;
  }

  /** What follows the `<` that ends an element does not change its text. */
  lemma ReadPrefix(doc: string, more: string, p: nat)
    requires p <= |doc| && p + IndexOf(doc[p..], '<') < |doc|
    ensures ElementText(doc + more, p) == ElementText(doc, p)
    ensures IndexOf((doc + more)[p..], '<') == IndexOf(doc[p..], '<')
  {
    var d, e := doc[p..], (doc + more)[p..];
    var i := IndexOf(d, '<');
    forall k | 0 <= k <= i ensures e[k] == d[k] {
      assert e[k] == doc[p + k];
    }
    var j := IndexOf(e, '<');
    assert j <= i;
    assert e[..i] == d[..i];
  }
}
