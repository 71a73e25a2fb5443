/// Character classes and the string clean-up steps that both generators
/// (rss-generator.js and rss.php) apply to text taken from the feeds.
module Text {

  /// The two regular-expression and trimming dialects of the source:
  /// ECMAScript (`/\s/`, `String.prototype.trim`) and PHP (PCRE without
  /// the `u` flag, PHP's `trim`).
  datatype Dialect = JavaScript | Php

  /** The class `\s` of the dialect's regular expressions. */
  predicate IsSpace(d: Dialect, c: char)
  {
    match d
    case JavaScript =>
      ('\t' <= c <= '\r') || c == ' ' || c == '\U{A0}' || c == '\U{1680}'
      || ('\U{2000}' <= c <= '\U{200A}') || c == '\U{2028}' || c == '\U{2029}'
      || c == '\U{202F}' || c == '\U{205F}' || c == '\U{3000}' || c == '\U{FEFF}'
    case Php =>
      ('\t' <= c <= '\r') || c == ' '
  }

  /** The characters the dialect's `trim` removes from both ends. */
  predicate IsTrimmed(d: Dialect, c: char)
  {
    match d
    case JavaScript => IsSpace(JavaScript, c)
    case Php => c == ' ' || c == '\t' || c == '\n' || c == '\r' || c == '\0' || c == '\U{B}'
  }

  /** The characters the regular-expression wildcard `.` does not match. */
  predicate IsLineEnd(d: Dialect, c: char)
  {
    match d
    case JavaScript => c == '\n' || c == '\r' || c == '\U{2028}' || c == '\U{2029}'
    case Php => c == '\n'
  }

  predicate IsDigit(c: char)
  {
    '0' <= c <= '9'
  }

  // ---------------------------------------------------------------------
  // Tags

  /** Index of the first `c` in `s`, or `|s|` when `s` has none. */
  function IndexOf(s: string, c: char): (i: nat)
    ensures i <= |s|
    ensures i < |s| ==> s[i] == c
    ensures forall k :: 0 <= k < i ==> s[k] != c
  {
    if s == [] then 0 else if s[0] == c then 0 else 1 + IndexOf(s[1..], c)
  }

  /** No `<` is followed, anywhere later, by a `>`: `s` holds no `<…>` tag. */
  ghost predicate NoTag(s: string)
  {
    forall i, j :: 0 <= i < j < |s| && s[i] == '<' ==> s[j] != '>'
  }

  /** The replacement `s.replace(/<[^>]*>/g, '')`: scanning left to right, a
      `<` that has some `>` after it opens a tag running to the first such
      `>`, and the whole tag is dropped; every other character is kept. */
  function StripTags(s: string): (r: string)
    ensures |r| <= |s|
    decreases |s|
  {
    if s == [] then []
    else if s[0] == '<' && IndexOf(s[1..], '>') < |s| - 1 then
      StripTags(s[IndexOf(s[1..], '>') + 2..])
    else
      [s[0]] + StripTags(s[1..])
  }

  /** Stripping tags never introduces a character. */
  lemma {:induction false} StripTagsChars(s: string)
    ensures forall c :: c in StripTags(s) ==> c in s
    decreases |s|
  {
    if s == [] {
    } else if s[0] == '<' && IndexOf(s[1..], '>') < |s| - 1 {
      var rest := s[IndexOf(s[1..], '>') + 2..];
      StripTagsChars(rest);
      forall c | c in rest ensures c in s {
        var q :| 0 <= q < |rest| && rest[q] == c;
        assert s[IndexOf(s[1..], '>') + 2 + q] == c;
      }
    } else {
      StripTagsChars(s[1..]);
      forall c | c in s[1..] ensures c in s {
        var q :| 0 <= q < |s[1..]| && s[1..][q] == c;
        assert s[1 + q] == c;
      }
    }
  }

  lemma NoTagCons(c: char, t: string)
    requires NoTag(t)
    requires c == '<' ==> '>' !in t
    ensures NoTag([c] + t)
  {
    var r := [c] + t;
    forall i, j | 0 <= i < j < |r| && r[i] == '<' ensures r[j] != '>' {
      assert r[j] == t[j - 1];
      if i > 0 {
        assert r[i] == t[i - 1];
      }
    }
  }

  /** After stripping, no `<…>` tag is left. */
  lemma {:induction false} StripTagsLeavesNoTag(s: string)
    ensures NoTag(StripTags(s))
    decreases |s|
  {
    if s == [] {
    } else if s[0] == '<' && IndexOf(s[1..], '>') < |s| - 1 {
      StripTagsLeavesNoTag(s[IndexOf(s[1..], '>') + 2..]);
    } else {
      StripTagsLeavesNoTag(s[1..]);
      StripTagsChars(s[1..]);
      NoTagCons(s[0], StripTags(s[1..]));
    }
  }

  /** Text without tags passes through unchanged, so stripping is idempotent. */
  lemma {:induction false} StripTagsKeepsPlainText(s: string)
    requires NoTag(s)
    ensures StripTags(s) == s
    decreases |s|
  {
    if s != [] {
      assert NoTag(s[1..]) by {
        forall i, j | 0 <= i < j < |s[1..]| && s[1..][i] == '<' ensures s[1..][j] != '>' {
          assert s[i + 1] == '<' && s[1..][j] == s[j + 1];
        }
      }
      StripTagsKeepsPlainText(s[1..]);
    }
  }

  /** Every `<` of `s`, but a last one, is followed by whitespace: nothing in
      `s` opens a tag for PHP's `strip_tags`. */
  ghost predicate NoTagOpen(s: string)
  {
    forall k :: 0 <= k < |s| - 1 && s[k] == '<' ==> IsSpace(Php, s[k + 1])
  }

  /** The core of PHP's `strip_tags`: a `<` followed by whitespace is kept as
      text; any other `<` opens a tag that runs to the next `>` and is
      dropped, and a tag that is never closed takes the rest of the text with
      it. Every other character is kept. */
  function PhpStripTags(s: string): (r: string)
    ensures |r| <= |s|
    decreases |s|
  {
    if s == [] then []
    else if s[0] == '<' && !(|s| > 1 && IsSpace(Php, s[1])) then
      var j := IndexOf(s[1..], '>');
      if j < |s| - 1 then PhpStripTags(s[j + 2..]) else []
    else [s[0]] + PhpStripTags(s[1..])
  }

  lemma NoTagOpenCons(c: char, t: string)
    requires NoTagOpen(t)
    requires c == '<' && t != [] ==> IsSpace(Php, t[0])
    ensures NoTagOpen([c] + t)
  {
    var r := [c] + t;
    forall k | 0 <= k < |r| - 1 && r[k] == '<' ensures IsSpace(Php, r[k + 1]) {
      assert r[k + 1] == t[k];
      if k > 0 {
        assert r[k] == t[k - 1];
      }
    }
  }

  /** After PHP's stripping, nothing opens a tag, and the text does not end in `<`. */
  lemma {:induction false} PhpStripTagsLeavesNoTagOpen(s: string)
    ensures var r := PhpStripTags(s);
      NoTagOpen(r) && (r != [] ==> r[|r| - 1] != '<')
    decreases |s|
  {
    if s == [] {
    } else if s[0] == '<' && !(|s| > 1 && IsSpace(Php, s[1])) {
      var j := IndexOf(s[1..], '>');
      if j < |s| - 1 {
        PhpStripTagsLeavesNoTagOpen(s[j + 2..]);
      }
    } else {
      var t := PhpStripTags(s[1..]);
      PhpStripTagsLeavesNoTagOpen(s[1..]);
      if s[0] == '<' {
        assert IsSpace(Php, s[1]) && s[1] != '<';
        assert t == [s[1]] + PhpStripTags(s[2..]);
      }
      NoTagOpenCons(s[0], t);
      var r := [s[0]] + t;
      if t == [] {
        assert s[0] == '<' ==> |s| > 1;
        assert s[0] == '<' ==> t != [];
      } else {
        assert r[|r| - 1] == t[|t| - 1];
      }
    }
  }

  /** Text in which nothing opens a tag passes through PHP's stripping unchanged. */
  lemma {:induction false} PhpStripTagsKeepsText(s: string)
    requires NoTagOpen(s) && (s != [] ==> s[|s| - 1] != '<')
    ensures PhpStripTags(s) == s
    decreases |s|
  {
    if s != [] {
      var t := s[1..];
      assert NoTagOpen(t) by {
        forall k | 0 <= k < |t| - 1 && t[k] == '<' ensures IsSpace(Php, t[k + 1]) {
          assert t[k] == s[k + 1] && t[k + 1] == s[k + 2];
        }
      }
      if t != [] {
        assert t[|t| - 1] == s[|s| - 1];
      }
      PhpStripTagsKeepsText(t);
    }
  }

  /** A segment of text in which nothing opens a tag opens none either. */
  lemma NoTagOpenSlice(s: string, i: nat, j: nat)
    requires i <= j <= |s| && NoTagOpen(s)
    ensures NoTagOpen(s[i..j])
  {
    var t := s[i..j];
    forall k | 0 <= k < |t| - 1 && t[k] == '<' ensures IsSpace(Php, t[k + 1]) {
      assert t[k] == s[i + k] && t[k + 1] == s[i + k + 1];
    }
  }

  // ---------------------------------------------------------------------
  // Whitespace

  /** `s` without its leading characters of class `\s`. */
  function DropSpaces(d: Dialect, s: string): (r: string)
    ensures |r| <= |s| && r == s[|s| - |r|..]
    ensures forall k :: 0 <= k < |s| - |r| ==> IsSpace(d, s[k])
    ensures r != [] ==> !IsSpace(d, r[0])
  {
    if s != [] && IsSpace(d, s[0]) then DropSpaces(d, s[1..]) else s
  }

  /** No two adjacent characters of `s` are both of class `\s`. */
  ghost predicate NoRuns(d: Dialect, s: string)
  {
    forall k :: 0 <= k < |s| - 1 ==> !(IsSpace(d, s[k]) && IsSpace(d, s[k + 1]))
  }

  /** Every character of `s` of class `\s` is a plain space. */
  ghost predicate OnlyPlainSpaces(d: Dialect, s: string)
  {
    forall k :: 0 <= k < |s| && IsSpace(d, s[k]) ==> s[k] == ' '
  }

  /** The replacement `s.replace(/\s+/g, ' ')`: each maximal run of `\s`
      characters becomes one space, and every other character is kept. */
  function Collapse(d: Dialect, s: string): (r: string)
    ensures r == [] <==> s == []
    ensures s != [] && !IsSpace(d, s[0]) ==> r[0] == s[0]
    decreases |s|
  {
    if s == [] then []
    else if IsSpace(d, s[0]) then [' '] + Collapse(d, DropSpaces(d, s))
    else [s[0]] + Collapse(d, s[1..])
  }

  /** After collapsing, every `\s` character is a plain space and no two are adjacent. */
  lemma {:induction false} CollapseLeavesSingleSpaces(d: Dialect, s: string)
    ensures NoRuns(d, Collapse(d, s)) && OnlyPlainSpaces(d, Collapse(d, s))
    decreases |s|
  {
    if s != [] {
      var tail := if IsSpace(d, s[0]) then DropSpaces(d, s) else s[1..];
      CollapseLeavesSingleSpaces(d, tail);
      var t := Collapse(d, tail);
      var r := Collapse(d, s);
      assert r == [if IsSpace(d, s[0]) then ' ' else s[0]] + t;
      forall k | 0 <= k < |r| - 1 ensures !(IsSpace(d, r[k]) && IsSpace(d, r[k + 1])) {
        if k > 0 {
          assert r[k] == t[k - 1] && r[k + 1] == t[k];
        } else if IsSpace(d, s[0]) {
          assert tail != [] && !IsSpace(d, tail[0]);
          assert r[1] == t[0] == tail[0];
        }
      }
      forall k | 0 <= k < |r| && IsSpace(d, r[k]) ensures r[k] == ' ' {
        if k > 0 {
          assert r[k] == t[k - 1];
        }
      }
    }
  }

  /** Collapsing never introduces a character other than the space. */
  lemma {:induction false} CollapseChars(d: Dialect, s: string)
    ensures forall c :: c in Collapse(d, s) && c != ' ' ==> c in s
    decreases |s|
  {
    if s != [] {
      var tail := if IsSpace(d, s[0]) then DropSpaces(d, s) else s[1..];
      CollapseChars(d, tail);
      SuffixChars(s, tail);
      if IsSpace(d, s[0]) {
        CharsOfCons(' ', Collapse(d, tail));
      } else {
        CharsOfCons(s[0], Collapse(d, tail));
      }
    }
  }

  lemma SuffixChars(s: string, t: string)
    requires |t| <= |s| && t == s[|s| - |t|..]
    ensures forall c :: c in t ==> c in s
  {
    forall c | c in t ensures c in s {
      var q :| 0 <= q < |t| && t[q] == c;
      assert s[|s| - |t| + q] == c;
    }
  }

  lemma CharsOfCons(x: char, t: string)
    ensures forall c :: c in [x] + t ==> c == x || c in t
  {
  }

  /** Text that is already collapsed passes through unchanged. */
  lemma {:induction false} CollapseKeepsCollapsed(d: Dialect, s: string)
    requires NoRuns(d, s) && OnlyPlainSpaces(d, s)
    ensures Collapse(d, s) == s
    decreases |s|
  {
    if s != [] {
      assert NoRuns(d, s[1..]) && OnlyPlainSpaces(d, s[1..]) by {
        forall k | 0 <= k < |s[1..]| - 1 ensures !(IsSpace(d, s[1..][k]) && IsSpace(d, s[1..][k + 1])) {
          assert s[1..][k] == s[k + 1] && s[1..][k + 1] == s[k + 2];
        }
        forall k | 0 <= k < |s[1..]| && IsSpace(d, s[1..][k]) ensures s[1..][k] == ' ' {
          assert s[1..][k] == s[k + 1];
        }
      }
      if IsSpace(d, s[0]) {
        assert s[0] == ' ';
        if |s| > 1 {
          assert !IsSpace(d, s[1]);
        }
        assert DropSpaces(d, s) == DropSpaces(d, s[1..]) == s[1..];
      }
      CollapseKeepsCollapsed(d, s[1..]);
    }
  }

  /** A segment of text without tags has no tag either. */
  lemma NoTagSlice(s: string, i: nat, j: nat)
    requires i <= j <= |s| && NoTag(s)
    ensures NoTag(s[i..j])
  {
    var t := s[i..j];
    forall p, q | 0 <= p < q < |t| && t[p] == '<' ensures t[q] != '>' {
      assert t[p] == s[i + p] && t[q] == s[i + q];
    }
  }

  /** Collapsing whitespace cannot create a tag. */
  lemma {:induction false} CollapseKeepsNoTag(d: Dialect, s: string)
    requires NoTag(s)
    ensures NoTag(Collapse(d, s))
    decreases |s|
  {
    if s != [] {
      if IsSpace(d, s[0]) {
        var t := DropSpaces(d, s);
        NoTagSlice(s, |s| - |t|, |s|);
        CollapseKeepsNoTag(d, t);
        NoTagCons(' ', Collapse(d, t));
      } else {
        NoTagSlice(s, 1, |s|);
        CollapseKeepsNoTag(d, s[1..]);
        if s[0] == '<' {
          CollapseChars(d, s[1..]);
        }
        NoTagCons(s[0], Collapse(d, s[1..]));
      }
    }
  }

  /** Collapsing PHP whitespace cannot open a tag: a `<` followed by a run
      of whitespace is followed by the space that replaces it. */
  lemma {:induction false} CollapseKeepsNoTagOpen(s: string)
    requires NoTagOpen(s)
    ensures NoTagOpen(Collapse(Php, s))
    decreases |s|
  {
    if s != [] {
      if IsSpace(Php, s[0]) {
        var t := DropSpaces(Php, s);
        NoTagOpenSlice(s, |s| - |t|, |s|);
        CollapseKeepsNoTagOpen(t);
        NoTagOpenCons(' ', Collapse(Php, t));
      } else {
        NoTagOpenSlice(s, 1, |s|);
        CollapseKeepsNoTagOpen(s[1..]);
        if s[0] == '<' && |s| > 1 {
          assert IsSpace(Php, s[1]);
          assert Collapse(Php, s[1..])[0] == ' ';
        }
        NoTagOpenCons(s[0], Collapse(Php, s[1..]));
      }
    }
  }

  /** A segment of collapsed text is still collapsed. */
  lemma CollapsedSlice(d: Dialect, s: string, i: nat, j: nat)
    requires i <= j <= |s| && NoRuns(d, s) && OnlyPlainSpaces(d, s)
    ensures NoRuns(d, s[i..j]) && OnlyPlainSpaces(d, s[i..j])
  {
    var t := s[i..j];
    forall k | 0 <= k < |t| - 1 ensures !(IsSpace(d, t[k]) && IsSpace(d, t[k + 1])) {
      assert t[k] == s[i + k] && t[k + 1] == s[i + k + 1];
    }
    forall k | 0 <= k < |t| && IsSpace(d, t[k]) ensures t[k] == ' ' {
      assert t[k] == s[i + k];
    }
  }

  /** The first index at or after `i` of a character the dialect's `trim`
      keeps, or `|s|`. */
  function TrimFrom(d: Dialect, s: string, i: nat): (k: nat)
    requires i <= |s|
    ensures i <= k <= |s|
    ensures forall q :: i <= q < k ==> IsTrimmed(d, s[q])
    ensures k < |s| ==> !IsTrimmed(d, s[k])
    decreases |s| - i
  {
    if i < |s| && IsTrimmed(d, s[i]) then TrimFrom(d, s, i + 1) else i
  }

  /** The end of the characters `trim` keeps before `j`, no lower than
      `lo`: everything from it to `j` is trimmed. */
  function TrimTo(d: Dialect, s: string, lo: nat, j: nat): (k: nat)
    requires lo <= j <= |s|
    ensures lo <= k <= j
    ensures forall q :: k <= q < j ==> IsTrimmed(d, s[q])
    ensures k > lo ==> !IsTrimmed(d, s[k - 1])
    decreases j - lo
  {
    if j > lo && IsTrimmed(d, s[j - 1]) then TrimTo(d, s, lo, j - 1) else j
  }

  /** The dialect's `trim(s)`: the segment of `s` left after removing the
      trimmed characters at both ends. It starts at `TrimFrom(d, s, 0)`,
      and everything after it is trimmed. */
  function Trim(d: Dialect, s: string): (r: string)
    ensures r == [] || (!IsTrimmed(d, r[0]) && !IsTrimmed(d, r[|r| - 1]))
    ensures var i := TrimFrom(d, s, 0); i + |r| <= |s| && r == s[i..i + |r|]
    ensures forall k :: TrimFrom(d, s, 0) + |r| <= k < |s| ==> IsTrimmed(d, s[k])
  {
    var i := TrimFrom(d, s, 0);
    var j := TrimTo(d, s, i, |s|);
    s[i..j]
  }

  /** Text with nothing to trim at either end is left as it is. */
  lemma TrimKeepsTrimmed(d: Dialect, s: string)
    requires s == [] || (!IsTrimmed(d, s[0]) && !IsTrimmed(d, s[|s| - 1]))
    ensures Trim(d, s) == s
  {
    assert TrimFrom(d, s, 0) == 0;
    assert TrimTo(d, s, 0, |s|) == |s|;
  }

  /** Trimming keeps text collapsed. */
  lemma TrimKeepsCollapsed(d: Dialect, s: string)
    requires NoRuns(d, s) && OnlyPlainSpaces(d, s)
    ensures NoRuns(d, Trim(d, s)) && OnlyPlainSpaces(d, Trim(d, s))
  {
    var r := Trim(d, s);
    var i := TrimFrom(d, s, 0);
    CollapsedSlice(d, s, i, i + |r|);
  }

  /** Trimming keeps text free of tags. */
  lemma TrimKeepsNoTag(d: Dialect, s: string)
    requires NoTag(s)
    ensures NoTag(Trim(d, s))
  {
    var i := TrimFrom(d, s, 0);
    NoTagSlice(s, i, i + |Trim(d, s)|);
  }

  /** Trimming keeps text free of tag openings. */
  lemma TrimKeepsNoTagOpen(d: Dialect, s: string)
    requires NoTagOpen(s)
    ensures NoTagOpen(Trim(d, s))
  {
    var i := TrimFrom(d, s, 0);
    NoTagOpenSlice(s, i, i + |Trim(d, s)|);
  }

  // ---------------------------------------------------------------------
  // Case and numbers

  function AsciiUpper(c: char): char
  {
    if 'a' <= c <= 'z' then (c as int - 32) as char else c
  }

  function AsciiLower(c: char): char
  {
    if 'A' <= c <= 'Z' then (c as int + 32) as char else c
  }

  /** Upper-cases the first character only (`charAt(0).toUpperCase() +
      slice(1)`, PHP's `ucfirst`): the result is as long as `s`, agrees with
      `s` after the first character, and its first character is no longer a
      lower-case letter while naming the same letter. */
  function UpperFirst(s: string): (r: string)
    ensures |r| == |s|
    ensures s != [] ==> r[1..] == s[1..]
    ensures s != [] ==> !('a' <= r[0] <= 'z') && AsciiLower(r[0]) == AsciiLower(s[0])
  {
    if s == [] then [] else [AsciiUpper(s[0])] + s[1..]
  }

  /** Decimal rendering of a natural number, as `${n}` does for a count. */
  function NatToString(n: nat): (r: string)
    ensures r != [] && forall k :: 0 <= k < |r| ==> IsDigit(r[k])
  {
    if n < 10 then [('0' as int + n) as char]
    else NatToString(n / 10) + [('0' as int + n % 10) as char]
  }

  /** The value of a string of decimal digits. */
  function DecimalValue(s: string): nat
    requires forall k :: 0 <= k < |s| ==> IsDigit(s[k])
  {
    if s == [] then 0
    else
      assert IsDigit(s[|s| - 1]);
      10 * DecimalValue(s[..|s| - 1]) + (s[|s| - 1] as int - '0' as int)
  }

  /** Reading back the rendered count gives the count. */
  lemma {:induction false} NatToStringRoundTrip(n: nat)
    ensures DecimalValue(NatToString(n)) == n
  {
    if n >= 10 {
      NatToStringRoundTrip(n / 10);
      var r := NatToString(n);
      assert r[..|r| - 1] == NatToString(n / 10);
    }
  }
}
