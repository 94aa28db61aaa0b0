/**
 * Character-level helpers shared by the caret protocol, the history and the
 * highlighting callbacks: the caret marker, the two ways the plugin removes
 * it (first occurrence only, or every occurrence), and the whitespace class
 * that JavaScript regular expressions call `\s`.
 */
module Text {

  /** The sentinel inserted at the caret while the content is rewritten (U+2603). */
  const MARK: char := '\U{2603}'

  /** Index of the first `c` in `s`, or -1 (JavaScript `indexOf`). */
  function IndexOf(s: string, c: char): (r: int)
    ensures -1 <= r < |s|
    ensures r == -1 <==> c !in s
    ensures 0 <= r ==> s[r] == c && c !in s[..r]
  {
    if s == [] then -1
    else if s[0] == c then 0
    else
      var k := IndexOf(s[1..], c);
      assert s[1..][..if k < 0 then 0 else k] == s[1..1 + if k < 0 then 0 else k];
      if k < 0 then -1 else k + 1
  }

  /** `IndexOf` is pinned down by its contract: the first occurrence is unique. */
  lemma {:induction false} IndexOfUnique(s: string, c: char, v: nat)
    requires v < |s| && s[v] == c && c !in s[..v]
    ensures IndexOf(s, c) == v
  {
  }

  /** Taking a prefix that ends inside the middle part of a concatenation. */
  lemma {:induction false} PrefixInMiddle(a: string, x: string, b: string, i: nat)
    requires i <= |x|
    ensures |a| + i <= |a + x + b| && (a + x + b)[..|a| + i] == a + x[..i]
  {
  }

  /** Taking a suffix that starts inside the middle part of a concatenation. */
  lemma {:induction false} SuffixInMiddle(a: string, x: string, b: string, i: nat)
    requires i <= |x|
    ensures |a| + i <= |a + x + b| && (a + x + b)[|a| + i..] == x[i..] + b
  {
  }

  /** Regrouping a five-part concatenation. */
  lemma {:induction false} Regroup(a: string, x: string, m: string, y: string, b: string)
    ensures a + (x + m + y) + b == (a + x) + m + (y + b)
  {
  }

  /** Splits of one string at the same place agree on both sides. */
  lemma {:induction false} SplitUnique(x1: string, m: string, y1: string, x2: string, y2: string)
    requires x1 + m + y1 == x2 + m + y2 && |x1| == |x2|
    ensures x1 == x2 && y1 == y2
  {
    var t := x1 + m + y1;
    assert x1 == t[..|x1|] && x2 == t[..|x2|];
    assert y1 == t[|x1| + |m|..] && y2 == t[|x2| + |m|..];
  }

  /** A string split around its first marker. */
  lemma {:induction false} SplitAtMark(s: string)
    requires MARK in s
    ensures var i := IndexOf(s, MARK);
            s == s[..i] + [MARK] + s[i + 1..] && MARK !in s[..i]
  {
    var i := IndexOf(s, MARK);
    assert s == s[..i] + [s[i]] + s[i + 1..];
  }

  /** Removing every marker from a string that holds one marker. */
  lemma {:induction false} StripAllOneMark(x: string, y: string)
    requires MARK !in x && MARK !in y
    ensures StripAll(x + [MARK] + y) == x + y
  {
    StripAllAppend(x + [MARK], y);
    StripAllAppend(x, [MARK]);
    assert StripAll([MARK]) == StripAll([]);
  }

  /** A string is its prefix followed by its suffix. */
  lemma {:induction false} SplitJoin(t: string, at: nat)
    requires at <= |t|
    ensures t[..at] + t[at..] == t && |t[..at]| == at
  {
  }

  /** Regrouping a four-part concatenation. */
  lemma {:induction false} Regroup4(a: string, x: string, y: string, b: string)
    ensures a + (x + y) + b == (a + x) + (y + b)
  {
  }

  /** Two strings that differ only in a middle part agree up to where the middle parts agree. */
  lemma {:induction false} SamePrefix(t1: string, t2: string, a: string, x1: string, x2: string, b: string, i: nat)
    requires t1 == a + x1 + b && t2 == a + x2 + b
    requires i <= |x1| && i <= |x2| && x1[..i] == x2[..i]
    ensures |a| + i <= |t1| && |a| + i <= |t2| && t2[..|a| + i] == t1[..|a| + i]
  {
    PrefixInMiddle(a, x1, b, i);
    PrefixInMiddle(a, x2, b, i);
  }

  /**
   * `txt.replace(CARET_CHAR, '')`: a string pattern without the `g` flag,
   * so only the FIRST marker is removed.
   */
  function Sanitize(s: string): (r: string)
    ensures MARK !in s ==> r == s
    ensures MARK in s ==> |r| == |s| - 1
  {
    var i := IndexOf(s, MARK);
    if i < 0 then s else s[..i] + s[i + 1..]
  }

  /** Sanitizing loses one marker and nothing else. */
  lemma {:induction false} SanitizeMultiset(s: string)
    ensures multiset(Sanitize(s)) == multiset(s) - multiset{MARK}
  {
    var i := IndexOf(s, MARK);
    if i >= 0 {
      assert s == s[..i] + [s[i]] + s[i + 1..];
    }
  }

  /** `text.replace(/☃/ig, '')`: every marker is removed. */
  function StripAll(s: string): (r: string)
    ensures MARK !in r
    ensures MARK !in s ==> r == s
    ensures |r| <= |s|
  {
    if s == [] then []
    else if s[0] == MARK then StripAll(s[1..])
    else [s[0]] + StripAll(s[1..])
  }

  /** Stripping every marker distributes over concatenation. */
  lemma {:induction false} StripAllAppend(a: string, b: string)
    ensures StripAll(a + b) == StripAll(a) + StripAll(b)
  {
    if a != [] {
      var ab := a + b;
      assert ab[0] == a[0] && ab[1..] == a[1..] + b;
      StripAllAppend(a[1..], b);
      if a[0] == MARK {
        assert StripAll(ab) == StripAll(a[1..] + b);
      } else {
        assert StripAll(ab) == [a[0]] + StripAll(a[1..] + b);
      }
    } else {
      assert a + b == b;
    }
  }

  /** The prefix before the first marker is left in place by `StripAll`. */
  lemma {:induction false} StripAllKeepsPrefix(s: string)
    requires MARK in s
    ensures IndexOf(s, MARK) <= |StripAll(s)|
    ensures StripAll(s)[..IndexOf(s, MARK)] == s[..IndexOf(s, MARK)]
  {
    var i := IndexOf(s, MARK);
    assert s == s[..i] + s[i..];
    StripAllAppend(s[..i], s[i..]);
  }

  /**
   * Removing the first marker undoes the insertion of one marker into
   * marker-free text, wherever it was inserted.
   */
  lemma {:induction false} SanitizeUndoesInsert(s: string, k: nat)
    requires k <= |s| && MARK !in s
    ensures Sanitize(s[..k] + [MARK] + s[k..]) == s
  {
    var m := s[..k] + [MARK] + s[k..];
    assert m[k] == MARK;
    assert m[..k] == s[..k];
    assert IndexOf(m, MARK) == k;
    assert m[k + 1..] == s[k..];
    assert s == s[..k] + s[k..];
  }

  /** Only a string holding a marker is changed by `Sanitize`. */
  lemma {:induction false} SanitizeFixpoint(s: string)
    ensures Sanitize(s) == s <==> MARK !in s
  {
    if MARK in s {
      assert |Sanitize(s)| != |s|;
    }
  }

  /**
   * The characters JavaScript's `\s` matches: the ECMAScript WhiteSpace and
   * LineTerminator code points.
   */
  predicate IsWhitespace(c: char)
  {
    c == '\t' || c == '\n' || c == '\U{000B}' || c == '\U{000C}' || c == '\r' || c == ' '
    || c == '\U{00A0}' || c == '\U{1680}' || ('\U{2000}' <= c <= '\U{200A}')
    || c == '\U{2028}' || c == '\U{2029}' || c == '\U{202F}' || c == '\U{205F}'
    || c == '\U{3000}' || c == '\U{FEFF}'
  }

  /**
   * The length JavaScript reports for `s`: strings there are sequences of
   * UTF-16 code units, so a character beyond U+FFFF counts twice.
   */
  function Utf16Length(s: string): (n: nat)
    ensures |s| <= n <= 2 * |s|
  {
    if s == [] then 0
    else (if s[0] as int >= 0x1_0000 then 2 else 1) + Utf16Length(s[1..])
  }

  /**
   * ASCII punctuation: the trigger characters for which `'\\' + trigger`
   * is the literal character inside a regular expression.
   */
  predicate IsPunct(c: char)
  {
    ('!' <= c <= '/') || (':' <= c <= '@') || ('[' <= c <= '`') || ('{' <= c <= '~')
  }
}
