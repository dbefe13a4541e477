/** The string primitives the services and queries rely on: Java's
    `String.isBlank` and `String.trim`, case folding for `LOWER` and
    `IgnoreCase`, substring search, and the `LIKE` operator of JPQL. */
module Text {

  /** Java's `Character.isWhitespace`: the Unicode space, line and paragraph
      separators other than the no-break spaces, plus the ASCII controls
      tab, line feed, vertical tab, form feed, carriage return and the four
      information separators U+001C..U+001F. */
  predicate IsJavaWhitespace(c: char) {
    || c == ' '
    || '\t' <= c <= '\r'
    || '\U{1C}' <= c <= '\U{1F}'
    || c == '\U{1680}'
    || '\U{2000}' <= c <= '\U{2006}'
    || '\U{2008}' <= c <= '\U{200A}'
    || c == '\U{2028}' || c == '\U{2029}'
    || c == '\U{205F}' || c == '\U{3000}'
  }

  /** Java's `String.isBlank`: empty or only whitespace code points. */
  predicate IsBlank(s: string) {
    forall i :: 0 <= i < |s| ==> IsJavaWhitespace(s[i])
  }

  /** The characters `String.trim` strips: every code point up to U+0020. */
  predicate IsTrimmable(c: char) {
    c <= ' '
  }

  predicate AllTrimmable(s: string) {
    forall i :: 0 <= i < |s| ==> IsTrimmable(s[i])
  }

  function TrimStart(s: string): (r: string)
    ensures |r| <= |s| && r == s[|s| - |r|..]
    ensures AllTrimmable(s[..|s| - |r|])
    ensures r == [] || !IsTrimmable(r[0])
  {
    if s != [] && IsTrimmable(s[0]) then
      var r := TrimStart(s[1..]);
      assert s[..|s| - |r|] == [s[0]] + s[1..][..|s| - 1 - |r|];
      r
    else s
  }

  function TrimEnd(s: string): (r: string)
    ensures |r| <= |s| && r == s[..|r|]
    ensures AllTrimmable(s[|r|..])
    ensures r == [] || !IsTrimmable(r[|r| - 1])
  {
    if s != [] && IsTrimmable(s[|s| - 1]) then
      var r := TrimEnd(s[..|s| - 1]);
      assert s[|r|..] == s[..|s| - 1][|r|..] + [s[|s| - 1]];
      r
    else s
  }

  /** `r` is `s` with the first `lo` characters and some trailing ones cut
      off, and every character cut off is trimmable. */
  predicate TrimmedAt(s: string, r: string, lo: int) {
    && 0 <= lo <= |s| - |r|
    && r == s[lo..lo + |r|]
    && AllTrimmable(s[..lo])
    && AllTrimmable(s[lo + |r|..])
  }

  /** Java's `String.trim`: cuts trimmable characters off both ends; what
      is left neither starts nor ends with one. */
  function Trim(s: string): (r: string)
    ensures |r| <= |s|
    ensures r == [] || (!IsTrimmable(r[0]) && !IsTrimmable(r[|r| - 1]))
  {
    var t := TrimStart(s);
    var r := TrimEnd(t);
    assert r != [] ==> r[0] == t[0];
    r
  }

  /** What `trim` leaves is an infix of the text, and everything it cut off
      is trimmable. */
  lemma TrimIsInfix(s: string)
    ensures exists lo :: TrimmedAt(s, Trim(s), lo)
  {
    var t := TrimStart(s);
    var r := TrimEnd(t);
    var lo := |s| - |t|;
    assert Trim(s) == r;
    assert s[lo + |r|..] == t[|r|..];
    assert TrimmedAt(s, r, lo);
  }

  /** `trim` removes exactly a trimmable prefix in front of a character
      it keeps. */
  lemma {:induction false} TrimStartOfPadded(pad: string, s: string)
    requires AllTrimmable(pad)
    requires s == [] || !IsTrimmable(s[0])
    ensures TrimStart(pad + s) == s
  {
    if pad != [] {
      assert (pad + s)[1..] == pad[1..] + s;
      TrimStartOfPadded(pad[1..], s);
    }
  }

  lemma {:induction false} TrimEndOfPadded(s: string, pad: string)
    requires AllTrimmable(pad)
    requires s == [] || !IsTrimmable(s[|s| - 1])
    ensures TrimEnd(s + pad) == s
  {
    if pad != [] {
      assert (s + pad)[..|s + pad| - 1] == s + pad[..|pad| - 1];
      TrimEndOfPadded(s, pad[..|pad| - 1]);
    }
  }

  /** Trimming a text padded on both sides gives back the text, when it
      neither starts nor ends with a trimmable character. */
  lemma TrimPadded(front: string, core: string, back: string)
    requires AllTrimmable(front) && AllTrimmable(back)
    requires core != [] && !IsTrimmable(core[0]) && !IsTrimmable(core[|core| - 1])
    ensures Trim(front + core + back) == core
  {
    assert front + core + back == front + (core + back);
    TrimStartOfPadded(front, core + back);
    TrimEndOfPadded(core, back);
  }

  /** A text of trimmable characters only trims to the empty string. */
  lemma TrimAllTrimmable(s: string)
    requires AllTrimmable(s)
    ensures Trim(s) == []
  {
    assert s + [] == s;
    TrimStartOfPadded(s, []);
  }

  /** Java's `String.length()`: UTF-16 code units, so a code point above
      U+FFFF (a surrogate pair) counts twice. */
  function Utf16Length(s: string): (n: nat)
    ensures |s| <= n <= 2 * |s|
    ensures n == 0 <==> s == []
  {
    if s == [] then 0 else (if s[0] > '\U{FFFF}' then 2 else 1) + Utf16Length(s[1..])
  }

  /** Within the Basic Multilingual Plane the UTF-16 length is the number of
      characters. */
  lemma {:induction false} Utf16LengthOfBmp(s: string)
    requires forall i :: 0 <= i < |s| ==> s[i] <= '\U{FFFF}'
    ensures Utf16Length(s) == |s|
  {
    if s != [] {
      Utf16LengthOfBmp(s[1..]);
    }
  }

  /** Outside the Basic Multilingual Plane every character counts twice. */
  lemma {:induction false} Utf16LengthOfAstral(s: string)
    requires forall i :: 0 <= i < |s| ==> s[i] > '\U{FFFF}'
    ensures Utf16Length(s) == 2 * |s|
  {
    if s != [] {
      Utf16LengthOfAstral(s[1..]);
    }
  }

  /** ASCII lower-casing of one character. */
  function LowerChar(c: char): char {
    if 'A' <= c <= 'Z' then (c as int + 32) as char else c
  }

  /** Lower-casing as the model's `LOWER` and `IgnoreCase`: ASCII letters only. */
  function Lower(s: string): (r: string)
    ensures |r| == |s|
    ensures forall i :: 0 <= i < |s| ==> r[i] == LowerChar(s[i])
  {
    seq(|s|, i requires 0 <= i < |s| => LowerChar(s[i]))
  }

  /** Case-insensitive equality, as Spring Data's `IgnoreCase` keyword. */
  predicate EqualsIgnoreCase(a: string, b: string) {
    Lower(a) == Lower(b)
  }

  /** `needle` occurs in `hay` as a contiguous block. */
  predicate Contains(hay: string, needle: string) {
    exists i | 0 <= i <= |hay| - |needle| :: OccursAt(hay, needle, i)
  }

  predicate OccursAt(hay: string, needle: string, i: int) {
    0 <= i <= |hay| - |needle| && hay[i..i + |needle|] == needle
  }

  // ---------------------------------------------------------------------
  // JPQL LIKE
  // ---------------------------------------------------------------------

  /** `s LIKE p` without an ESCAPE clause: `%` matches any run of characters,
      `_` matches exactly one, every other character matches itself. */
  predicate Like(s: string, p: string)
    decreases |s| + |p|
  {
    if p == [] then s == []
    else if p[0] == '%' then Like(s, p[1..]) || (s != [] && Like(s[1..], p))
    else s != [] && (p[0] == '_' || p[0] == s[0]) && Like(s[1..], p[1..])
  }

  predicate NoWildcards(s: string) {
    forall i :: 0 <= i < |s| ==> s[i] != '%' && s[i] != '_'
  }

  /** A lone `%` matches everything. */
  lemma {:induction false} LikePercent(s: string)
    ensures Like(s, "%")
  {
    if s != [] {
      LikePercent(s[1..]);
    }
  }

  /** A wildcard-free prefix of the pattern must match a prefix of the text
      literally. */
  lemma {:induction false} LikeLiteralPrefix(s: string, n: string, q: string)
    requires NoWildcards(n)
    ensures Like(s, n + q) <==> |n| <= |s| && s[..|n|] == n && Like(s[|n|..], q)
  {
    if n == [] {
      assert n + q == q;
    } else {
      assert (n + q)[0] == n[0];
      assert (n + q)[1..] == n[1..] + q;
      if s != [] {
        LikeLiteralPrefix(s[1..], n[1..], q);
        if |n| <= |s| {
          assert s[..|n|] == [s[0]] + s[1..][..|n| - 1];
          assert s[|n|..] == s[1..][|n| - 1..];
        }
      }
    }
  }

  /** A leading `%` lets the rest of the pattern match any suffix. */
  lemma {:induction false} LikeLeadingPercent(s: string, q: string)
    ensures Like(s, "%" + q) <==> exists i :: 0 <= i <= |s| && Like(s[i..], q)
  {
    assert ("%" + q)[1..] == q;
    if s == [] {
      assert s[0..] == s;
    } else {
      LikeLeadingPercent(s[1..], q);
      if Like(s, "%" + q) {
        if !Like(s, q) {
          var i :| 0 <= i <= |s[1..]| && Like(s[1..][i..], q);
          assert s[1..][i..] == s[i + 1..];
        } else {
          assert s[0..] == s;
        }
      } else {
        forall i | 0 <= i <= |s|
          ensures !Like(s[i..], q)
        {
          if i == 0 {
            assert s[0..] == s;
          } else {
            assert s[1..][i - 1..] == s[i..];
          }
        }
      }
    }
  }

  /** The search pattern `'%' + text + '%'` with a wildcard-free `text` is
      exactly substring search. */
  lemma LikeIsContains(s: string, n: string)
    requires NoWildcards(n)
    ensures Like(s, "%" + n + "%") <==> Contains(s, n)
  {
    assert "%" + n + "%" == "%" + (n + "%");
    LikeLeadingPercent(s, n + "%");
    if Contains(s, n) {
      var i :| 0 <= i <= |s| - |n| && OccursAt(s, n, i);
      LikeLiteralPrefix(s[i..], n, "%");
      assert s[i..][..|n|] == s[i..i + |n|];
      LikePercent(s[i..][|n|..]);
    }
    if Like(s, "%" + n + "%") {
      var i :| 0 <= i <= |s| && Like(s[i..], n + "%");
      LikeLiteralPrefix(s[i..], n, "%");
      assert s[i..][..|n|] == s[i..i + |n|];
      assert OccursAt(s, n, i);
    }
  }
}
