/**
 * The default callback of retype.js, the older variant: the tag spans it
 * wrote before are removed with two regular expressions, then for each
 * trigger every match of the trigger followed by two or more
 * non-whitespace characters is wrapped in a span.  The regular expressions
 * are written out as left-to-right scans.
 */
module LegacyTags {
  import opened Text
  import opened Dom
  import opened Tags

  /** The `i` flag on the ASCII letters of a pattern: both sides compared upper-cased. */
  function Upper(c: char): (u: char)
    ensures u == '<' <==> c == '<'
  {
    if 'a' <= c <= 'z' then (c as int - 32) as char else c
  }

  predicate IsDigit(c: char)
  {
    '0' <= c <= '9'
  }

  /** `h` begins with `pat`, letters compared without regard to case. */
  predicate StartsWithCI(h: string, pat: string)
  {
    |pat| <= |h| && forall k :: 0 <= k < |pat| ==> Upper(h[k]) == Upper(pat[k])
  }

  /** The end of the run of digits from `i` (the greedy `\d+`). */
  function DigitRun(h: string, i: nat): (j: nat)
    requires i <= |h|
    ensures i <= j <= |h|
    ensures forall k :: i <= k < j ==> IsDigit(h[k])
    ensures j < |h| ==> !IsDigit(h[j])
    decreases |h| - i
  {
    if i < |h| && IsDigit(h[i]) then DigitRun(h, i + 1) else i
  }

  /** `<span class="tag tag` up to the digits. */
  const OPENER_HEAD: string := "<" + OPEN_NAME

  /** The two patterns retype.js:56-57 removes: `/<span class="tag tag\d+">/ig` and `/<\/span>/ig`. */
  datatype Pattern = Opener | Closer

  /** Length of the match of the pattern at the start of `h`, or 0 when it does not match there. */
  function MatchLen(h: string, pat: Pattern): (n: nat)
    ensures n <= |h|
    ensures n > 0 ==> h[0] == '<'
  {
    if h == [] || h[0] != '<' then 0
    else match pat
    case Closer => if StartsWithCI(h, CLOSE_TAG) then |CLOSE_TAG| else 0
    case Opener =>
      if !StartsWithCI(h, OPENER_HEAD) then 0
      else
        var d := DigitRun(h, |OPENER_HEAD|);
        if d > |OPENER_HEAD| && StartsWithCI(h[d..], "\">") then d + 2 else 0
  }

  /** `h.replace(pattern, '')` with the global flag: the matches, found left to right, removed. */
  function RemoveAll(h: string, pat: Pattern): (r: string)
    ensures |r| <= |h|
    decreases |h|
  {
    if h == [] then []
    else
      var n := MatchLen(h, pat);
      if n > 0 then RemoveAll(h[n..], pat) else [h[0]] + RemoveAll(h[1..], pat)
  }

  /** retype.js:56-57: the openers go first, then the closers. */
  function StripOld(h: string): string
  {
    RemoveAll(RemoveAll(h, Opener), Closer)
  }

  /** The end of the run of non-whitespace characters from `k` (the greedy `\S*`). */
  function RunEnd(h: string, k: nat): (e: nat)
    requires k <= |h|
    ensures k <= e <= |h|
    ensures forall j :: k <= j < e ==> !IsWhitespace(h[j])
    ensures e < |h| ==> IsWhitespace(h[e])
    decreases |h| - k
  {
    if k < |h| && !IsWhitespace(h[k]) then RunEnd(h, k + 1) else k
  }

  /**
   * A match of `trigger\S{2,}` starts at the head of `h`.  The pattern is
   * not a unicode one, so `\S{2,}` counts UTF-16 code units: one character
   * beyond U+FFFF after the trigger is already enough.
   */
  predicate Matches(h: string, trigger: char)
    requires h != []
  {
    h[0] == trigger && Utf16Length(h[1..RunEnd(h, 1)]) >= 2
  }

  /**
   * `h.replace(new RegExp('\\' + trigger + '\\S{2,}', 'ig'), '<span class="tag tagN">$&</span>')`:
   * scanning left to right, a trigger followed by at least two
   * non-whitespace characters is wrapped together with all of them, and the
   * scan resumes after the match.
   */
  function WrapMatches(h: string, trigger: char, n: nat): string
    decreases |h|
  {
    if h == [] then []
    else if Matches(h, trigger) then
      var e := RunEnd(h, 1);
      OpenTag(n) + h[..e] + CLOSE_TAG + WrapMatches(h[e..], trigger, n)
    else [h[0]] + WrapMatches(h[1..], trigger, n)
  }

  /**
   * The same test counted in characters: two or more after the trigger, or
   * a single one beyond U+FFFF.
   */
  lemma {:induction false} MatchesByCount(h: string, trigger: char)
    requires h != []
    ensures Matches(h, trigger)
        <==> h[0] == trigger
             && (RunEnd(h, 1) >= 3 || (RunEnd(h, 1) == 2 && h[1] as int >= 0x1_0000))
  {
  }

  /**
   * `#` followed by one emoji is a match, since `\S{2,}` sees its two code
   * units; `#` followed by one letter is not.
   */
  lemma {:induction false} AstralRunWraps()
    ensures WrapMatches("#\U{1F600}", '#', 1) == OpenTag(1) + "#\U{1F600}" + CLOSE_TAG
    ensures WrapMatches("#a", '#', 1) == "#a"
  {
  }

  /** The replacements for the triggers from the `i`-th on, trigger `i` with class `tag(i+1)`. */
  function WrapEach(triggers: seq<char>, h: string, i: nat): string
    decreases |triggers| - i
  {
    if i >= |triggers| then h
    else WrapEach(triggers, WrapMatches(h, triggers[i], i + 1), i + 1)
  }

  /** What retype.js `defaultCallback` writes back for the markup `html`. */
  function LegacyHighlight(triggers: seq<char>, html: string): string
  {
    WrapEach(triggers, StripOld(html), 0)
  }

  /** retype.js:53-66 on the markup: strip, then one replacement per trigger. */
  method DefaultCallback(triggers: seq<char>, html: string) returns (out: string)
    ensures out == LegacyHighlight(triggers, html)
  {
    out := RemoveAll(html, Opener);
    out := RemoveAll(out, Closer);
    for i := 0 to |triggers|
      invariant WrapEach(triggers, out, i) == LegacyHighlight(triggers, html)
    {
      out := WrapMatches(out, triggers[i], i + 1);
    }
  }

  // ---------------------------------------------------------------------
  // Removing the spans undoes one trigger's wrapping

  /** A prefix without `<` holds no match and is kept. */
  lemma {:induction false} RemovePlainPrefix(a: string, b: string, pat: Pattern)
    requires '<' !in a
    ensures RemoveAll(a + b, pat) == a + RemoveAll(b, pat)
  {
    if a != [] {
      var h := a + b;
      assert h[0] == a[0] && h[1..] == a[1..] + b;
      RemovePlainPrefix(a[1..], b, pat);
    } else {
      assert a + b == b;
    }
  }

  /** Both removals leave markup without `<` as it is. */
  lemma {:induction false} StripOldPlain(h: string)
    requires '<' !in h
    ensures StripOld(h) == h
  {
    assert h + [] == h;
    RemovePlainPrefix(h, [], Opener);
    RemovePlainPrefix(h, [], Closer);
  }

  /** The digits of a class number end where its closing `">` begins. */
  lemma {:induction false} DigitRunOfTag(h: string, i: nat, d: string)
    requires i + |d| + 1 <= |h| && h[i..i + |d|] == d && h[i + |d|] == '"'
    requires forall k :: 0 <= k < |d| ==> IsDigit(d[k])
    ensures DigitRun(h, i) == i + |d|
    decreases |d|
  {
    if d != [] {
      assert h[i] == d[0] && IsDigit(h[i]);
      assert h[i + 1..i + 1 + |d[1..]|] == d[1..];
      DigitRunOfTag(h, i + 1, d[1..]);
    }
  }

  /** The opener `OpenTag(n)` is one match of the opener pattern. */
  lemma {:induction false} RemoveOpenTag(n: nat, b: string)
    ensures RemoveAll(OpenTag(n) + b, Opener) == RemoveAll(b, Opener)
  {
    var d := Digits(n);
    var h := OpenTag(n) + b;
    assert h == OPENER_HEAD + d + "\">" + b;
    var i := |OPENER_HEAD|;
    assert h[..i] == OPENER_HEAD;
    assert h[i..i + |d|] == d && h[i + |d|] == '"';
    DigitRunOfTag(h, i, d);
    assert h[i + |d|..][..2] == "\">";
    assert MatchLen(h, Opener) == i + |d| + 2;
    assert h[i + |d| + 2..] == b;
  }

  /** Markup whose second character is `/` does not begin with an opener. */
  lemma {:induction false} NotOpener(h: string)
    requires 2 <= |h| && h[1] == '/'
    ensures MatchLen(h, Opener) == 0
  {
    assert OPENER_HEAD[1] == 's';
    assert Upper(h[1]) != Upper(OPENER_HEAD[1]);
  }

  /** Where the pattern does not match, the first character is kept. */
  lemma {:induction false} KeepFirst(h: string, pat: Pattern)
    requires h != [] && MatchLen(h, pat) == 0
    ensures RemoveAll(h, pat) == [h[0]] + RemoveAll(h[1..], pat)
  {
  }

  /** The closer is `<` followed by characters other than `<`. */
  lemma {:induction false} CloseTagShape()
    ensures CLOSE_TAG == ['<'] + CLOSE_TAG[1..] && CLOSE_TAG[1] == '/' && '<' !in CLOSE_TAG[1..]
  {
    assert CLOSE_TAG[1..] == "/span>";
  }

  /** Markup `</…` without another `<` is not an opener and is kept by the first removal. */
  lemma {:induction false} KeepSlashTag(t: string, b: string)
    requires 1 <= |t| && t[0] == '/' && '<' !in t
    ensures RemoveAll(['<'] + (t + b), Opener) == ['<'] + (t + RemoveAll(b, Opener))
  {
    var h := ['<'] + (t + b);
    assert h[1..] == t + b;
    NotOpener(h);
    KeepFirst(h, Opener);
    RemovePlainPrefix(t, b, Opener);
  }

  /** A closer is not an opener: it is kept by the first removal. */
  lemma {:induction false} KeepCloseTag(b: string)
    ensures RemoveAll(CLOSE_TAG + b, Opener) == CLOSE_TAG + RemoveAll(b, Opener)
  {
    var t := CLOSE_TAG[1..];
    CloseTagShape();
    KeepSlashTag(t, b);
    var r := RemoveAll(b, Opener);
    ConsSplit(CLOSE_TAG, b);
    ConsSplit(CLOSE_TAG, r);
  }

  lemma {:induction false} ConsSplit(x: string, y: string)
    requires x != []
    ensures x + y == [x[0]] + (x[1..] + y)
  {
  }

  /** A closer is one match of the closer pattern. */
  lemma {:induction false} RemoveCloseTag(b: string)
    ensures RemoveAll(CLOSE_TAG + b, Closer) == RemoveAll(b, Closer)
  {
    var h := CLOSE_TAG + b;
    assert h[..|CLOSE_TAG|] == CLOSE_TAG;
    assert MatchLen(h, Closer) == |CLOSE_TAG|;
    assert h[|CLOSE_TAG|..] == b;
  }

  /** One wrapped match loses its opener in the first removal. */
  lemma {:induction false} UnwrapOpener(n: nat, x: string, rest: string)
    requires '<' !in x
    ensures RemoveAll(OpenTag(n) + (x + (CLOSE_TAG + rest)), Opener) == x + (CLOSE_TAG + RemoveAll(rest, Opener))
  {
    RemoveOpenTag(n, x + (CLOSE_TAG + rest));
    RemovePlainPrefix(x, CLOSE_TAG + rest, Opener);
    KeepCloseTag(rest);
  }

  /** One wrapped match loses its closer in the second removal. */
  lemma {:induction false} UnwrapCloser(x: string, rest: string)
    requires '<' !in x
    ensures RemoveAll(x + (CLOSE_TAG + rest), Closer) == x + RemoveAll(rest, Closer)
  {
    RemovePlainPrefix(x, CLOSE_TAG + rest, Closer);
    RemoveCloseTag(rest);
  }

  /** A trigger with at least two more characters is wrapped, the scan resuming past it. */
  lemma {:induction false} WrapHit(p: string, trigger: char, n: nat)
    requires p != [] && Matches(p, trigger)
    ensures WrapMatches(p, trigger, n)
         == OpenTag(n) + (p[..RunEnd(p, 1)] + (CLOSE_TAG + WrapMatches(p[RunEnd(p, 1)..], trigger, n)))
  {
  }

  /** Anything else at the head is copied. */
  lemma {:induction false} WrapMiss(p: string, trigger: char, n: nat)
    requires p != [] && !Matches(p, trigger)
    ensures WrapMatches(p, trigger, n) == [p[0]] + WrapMatches(p[1..], trigger, n)
  {
  }

  /** Both parts of markup-free text split at `e` are markup-free. */
  lemma {:induction false} PlainParts(p: string, e: nat)
    requires '<' !in p && e <= |p|
    ensures '<' !in p[..e] && '<' !in p[e..] && p == p[..e] + p[e..]
  {
    assert forall i :: 0 <= i < e ==> p[..e][i] == p[i];
    assert forall i :: 0 <= i < |p| - e ==> p[e..][i] == p[e + i];
  }

  /** On text without markup, removing the spans gives back what one trigger's replacement wrapped. */
  lemma {:induction false} WrapMatchesStrips(p: string, trigger: char, n: nat)
    requires '<' !in p
    ensures StripOld(WrapMatches(p, trigger, n)) == p
    decreases |p|, 1
  {
    if p != [] {
      if Matches(p, trigger) {
        StripsHit(p, trigger, n);
      } else {
        StripsMiss(p, trigger, n);
      }
    }
  }

  lemma {:induction false} StripsHit(p: string, trigger: char, n: nat)
    requires '<' !in p && p != [] && Matches(p, trigger)
    ensures StripOld(WrapMatches(p, trigger, n)) == p
    decreases |p|, 0
  {
    var e := RunEnd(p, 1);
    var x := p[..e];
    var rest := WrapMatches(p[e..], trigger, n);
    WrapHit(p, trigger, n);
    PlainParts(p, e);
    UnwrapOpener(n, x, rest);
    UnwrapCloser(x, RemoveAll(rest, Opener));
    WrapMatchesStrips(p[e..], trigger, n);
  }

  lemma {:induction false} StripsMiss(p: string, trigger: char, n: nat)
    requires '<' !in p && p != [] && !Matches(p, trigger)
    ensures StripOld(WrapMatches(p, trigger, n)) == p
    decreases |p|, 0
  {
    var rest := WrapMatches(p[1..], trigger, n);
    WrapMiss(p, trigger, n);
    PlainParts(p, 1);
    RemovePlainPrefix([p[0]], rest, Opener);
    RemovePlainPrefix([p[0]], RemoveAll(rest, Opener), Closer);
    WrapMatchesStrips(p[1..], trigger, n);
  }

  /** Text without the trigger is left as it is. */
  lemma {:induction false} WrapMatchesAbsent(p: string, trigger: char, n: nat)
    requires trigger !in p
    ensures WrapMatches(p, trigger, n) == p
    decreases |p|
  {
    if p != [] {
      assert p[0] != trigger;
      WrapMatchesAbsent(p[1..], trigger, n);
      assert p == [p[0]] + p[1..];
    }
  }

  /** With one trigger, the callback's output on plain text strips back to that text. */
  lemma {:induction false} LegacyHighlightStrips(trigger: char, p: string)
    requires '<' !in p
    ensures StripOld(LegacyHighlight([trigger], p)) == p
  {
    StripOldPlain(p);
    assert LegacyHighlight([trigger], p) == WrapEach([trigger], WrapMatches(p, trigger, 1), 1);
    WrapMatchesStrips(p, trigger, 1);
  }

  /** A wrapped match shows only the text it wraps. */
  lemma {:induction false} VisibleMatch(n: nat, x: string, rest: string)
    requires '<' !in x
    ensures Visible(OpenTag(n) + (x + (CLOSE_TAG + rest))) == x + Visible(rest)
  {
    OpenTagMarkup(n);
    CloseTagMarkup();
    SpanMarkupVanishes(OpenTag(n), x + (CLOSE_TAG + rest));
    VisibleOfText(x, CLOSE_TAG + rest);
    SpanMarkupVanishes(CLOSE_TAG, rest);
  }

  /** On text without markup, one trigger's replacement adds only tags: the visible text is unchanged. */
  lemma {:induction false} WrapMatchesVisible(p: string, trigger: char, n: nat)
    requires '<' !in p
    ensures Visible(WrapMatches(p, trigger, n)) == p
    decreases |p|, 1
  {
    if p != [] {
      if Matches(p, trigger) {
        VisibleHit(p, trigger, n);
      } else {
        VisibleMiss(p, trigger, n);
      }
    }
  }

  lemma {:induction false} VisibleHit(p: string, trigger: char, n: nat)
    requires '<' !in p && p != [] && Matches(p, trigger)
    ensures Visible(WrapMatches(p, trigger, n)) == p
    decreases |p|, 0
  {
    var e := RunEnd(p, 1);
    WrapHit(p, trigger, n);
    PlainParts(p, e);
    VisibleMatch(n, p[..e], WrapMatches(p[e..], trigger, n));
    WrapMatchesVisible(p[e..], trigger, n);
  }

  lemma {:induction false} VisibleMiss(p: string, trigger: char, n: nat)
    requires '<' !in p && p != [] && !Matches(p, trigger)
    ensures Visible(WrapMatches(p, trigger, n)) == p
    decreases |p|, 0
  {
    WrapMiss(p, trigger, n);
    PlainParts(p, 1);
    VisibleOfText(p[..1], WrapMatches(p[1..], trigger, n));
    WrapMatchesVisible(p[1..], trigger, n);
  }

  /** With one trigger, the callback's output on plain text shows that text. */
  lemma {:induction false} LegacyHighlightVisible(trigger: char, p: string)
    requires '<' !in p
    ensures Visible(LegacyHighlight([trigger], p)) == p
  {
    StripOldPlain(p);
    assert LegacyHighlight([trigger], p) == WrapEach([trigger], WrapMatches(p, trigger, 1), 1);
    WrapMatchesVisible(p, trigger, 1);
  }
}
