/**
 * The highlighting pass of the current plugin: `findTags` scans markup for
 * runs that begin at a trigger character, and the default callback strips
 * the `<span>` tags of the previous pass and wraps every run, right to left,
 * in `<span class="tag tagN">…</span>`.
 */
module Tags {
  import opened Wrappers
  import opened Text
  import opened Dom

  /** A run `{start, stop}`: the half-open index range `[start, stop)` of a tag. */
  datatype Run = Run(start: nat, stop: nat)

  /** The characters that end a run: `\s`, `<`, or any trigger. */
  predicate Breaks(c: char, triggers: seq<char>)
  {
    IsWhitespace(c) || c == '<' || c in triggers
  }

  /**
   * The runs the first loop of `findTags` collects from index `i` on, when
   * the run being scanned began at `start` (`None` when no run is open).
   */
  function ScanFrom(h: string, trigger: char, triggers: seq<char>, i: nat, start: Option<nat>): seq<Run>
    requires i <= |h|
    decreases |h| - i
  {
    if i == |h| then
      if start.Some? then [Run(start.value, |h|)] else []
    else
      var closes := start.Some? && Breaks(h[i], triggers);
      var pushed := if closes then [Run(start.value, i)] else [];
      var open := if closes then None else start;
      var next := if open.None? && h[i] == trigger then Some(i) else open;
      pushed + ScanFrom(h, trigger, triggers, i + 1, next)
  }

  /** Every run the first loop of `findTags` collects. */
  function RawRuns(h: string, trigger: char, triggers: seq<char>): seq<Run>
  {
    ScanFrom(h, trigger, triggers, 0, None)
  }

  /** A trailing marker is left outside the run. */
  function Trim(h: string, r: Run): Run
  {
    if 0 < r.stop <= |h| && h[r.stop - 1] == MARK then Run(r.start, r.stop - 1) else r
  }

  /** The second loop of `findTags`: trim each run, drop the ones of length one. */
  function Keep(h: string, rs: seq<Run>): seq<Run>
  {
    if rs == [] then []
    else
      var t := Trim(h, rs[0]);
      (if t.start + 1 != t.stop then [t] else []) + Keep(h, rs[1..])
  }

  /** What `findTags(trigger, html, triggers)` returns. */
  function TagRuns(h: string, trigger: char, triggers: seq<char>): seq<Run>
  {
    Keep(h, RawRuns(h, trigger, triggers))
  }

  /** A run of the first loop: opened at the trigger, closed by the first breaking character after it. */
  predicate RawOk(h: string, trigger: char, triggers: seq<char>, r: Run)
  {
    r.start < r.stop <= |h| && h[r.start] == trigger
    && (forall q :: r.start < q < r.stop ==> !Breaks(h[q], triggers))
    && (r.stop == |h| || Breaks(h[r.stop], triggers))
  }

  /**
   * A returned run: it starts at the trigger, holds at least one more
   * character, has no breaking character inside, and extends to the next
   * breaking character, except for a marker just before it.
   */
  predicate TagOk(h: string, trigger: char, triggers: seq<char>, r: Run)
  {
    r.start + 1 < r.stop <= |h| && h[r.start] == trigger
    && (forall q :: r.start < q < r.stop ==> !Breaks(h[q], triggers))
    && (r.stop == |h| || Breaks(h[r.stop], triggers)
        || (h[r.stop] == MARK && (r.stop + 1 == |h| || Breaks(h[r.stop + 1], triggers))))
  }

  /** Runs in ascending order, none overlapping the next. */
  predicate Ordered(rs: seq<Run>)
  {
    forall i, j :: 0 <= i < j < |rs| ==> rs[i].stop <= rs[j].start
  }

  lemma {:induction false} OrderedTail(rs: seq<Run>)
    requires Ordered(rs) && rs != []
    ensures Ordered(rs[1..])
  {
    var tail := rs[1..];
    forall i, j | 0 <= i < j < |tail| ensures tail[i].stop <= tail[j].start {
      assert tail[i] == rs[i + 1] && tail[j] == rs[j + 1];
    }
  }

  lemma {:induction false} OrderedCons(r: Run, rs: seq<Run>)
    requires Ordered(rs) && forall j :: 0 <= j < |rs| ==> r.stop <= rs[j].start
    ensures Ordered([r] + rs)
  {
    var ks := [r] + rs;
    forall i, j | 0 <= i < j < |ks| ensures ks[i].stop <= ks[j].start {
      assert ks[j] == rs[j - 1];
      if i > 0 {
        assert ks[i] == rs[i - 1];
      }
    }
  }

  /** The runs of the first loop are well formed, ordered, and begin no earlier than the scan. */
  lemma {:induction false} ScanFromOk(h: string, trigger: char, triggers: seq<char>, i: nat, start: Option<nat>)
    requires i <= |h|
    requires start.Some? ==> start.value < i && h[start.value] == trigger
    requires start.Some? ==> forall q :: start.value < q < i ==> !Breaks(h[q], triggers)
    ensures var rs := ScanFrom(h, trigger, triggers, i, start);
            var lo := if start.Some? then start.value else i;
            Ordered(rs) && forall j :: 0 <= j < |rs| ==> RawOk(h, trigger, triggers, rs[j]) && lo <= rs[j].start
    decreases |h| - i, 1
  {
    if i == |h| {
      if start.Some? {
        assert RawOk(h, trigger, triggers, Run(start.value, |h|));
      }
    } else if start.Some? && Breaks(h[i], triggers) {
      ScanClose(h, trigger, triggers, i, start.value);
    } else {
      ScanOn(h, trigger, triggers, i, start);
    }
  }

  /** The scan at a breaking character closes the open run. */
  lemma {:induction false} ScanClose(h: string, trigger: char, triggers: seq<char>, i: nat, st: nat)
    requires st < i < |h| && h[st] == trigger && Breaks(h[i], triggers)
    requires forall q :: st < q < i ==> !Breaks(h[q], triggers)
    ensures var rs := ScanFrom(h, trigger, triggers, i, Some(st));
            Ordered(rs) && forall j :: 0 <= j < |rs| ==> RawOk(h, trigger, triggers, rs[j]) && st <= rs[j].start
    decreases |h| - i, 0
  {
    var next := if h[i] == trigger then Some(i) else None;
    var rest := ScanFrom(h, trigger, triggers, i + 1, next);
    assert Ordered(rest) && forall j :: 0 <= j < |rest| ==> RawOk(h, trigger, triggers, rest[j]) && i <= rest[j].start by {
      ScanFromOk(h, trigger, triggers, i + 1, next);
      RunsFrom(h, trigger, triggers, rest, if next.Some? then i else i + 1, i);
    }
    assert RawOk(h, trigger, triggers, Run(st, i));
    RunsCons(h, trigger, triggers, Run(st, i), rest);
    assert ScanFrom(h, trigger, triggers, i, Some(st)) == [Run(st, i)] + rest;
  }

  /** Elsewhere the scan pushes nothing, opening a run at the trigger when none is open. */
  lemma {:induction false} ScanOn(h: string, trigger: char, triggers: seq<char>, i: nat, start: Option<nat>)
    requires i < |h|
    requires start.Some? ==> start.value < i && h[start.value] == trigger && !Breaks(h[i], triggers)
    requires start.Some? ==> forall q :: start.value < q < i ==> !Breaks(h[q], triggers)
    ensures var rs := ScanFrom(h, trigger, triggers, i, start);
            var lo := if start.Some? then start.value else i;
            Ordered(rs) && forall j :: 0 <= j < |rs| ==> RawOk(h, trigger, triggers, rs[j]) && lo <= rs[j].start
    decreases |h| - i, 0
  {
    var next := if start.None? && h[i] == trigger then Some(i) else start;
    var rest := ScanFrom(h, trigger, triggers, i + 1, next);
    var lo := if start.Some? then start.value else i;
    assert Ordered(rest) && forall j :: 0 <= j < |rest| ==> RawOk(h, trigger, triggers, rest[j]) && lo <= rest[j].start by {
      ScanFromOk(h, trigger, triggers, i + 1, next);
      RunsFrom(h, trigger, triggers, rest, if next.Some? then next.value else i + 1, lo);
    }
    assert ScanFrom(h, trigger, triggers, i, start) == rest by {
      assert ScanFrom(h, trigger, triggers, i, start) == [] + rest;
      assert [] + rest == rest;
    }
  }

  /** Raw runs that begin at `lo` or later begin at any smaller bound or later. */
  lemma {:induction false} RunsFrom(h: string, trigger: char, triggers: seq<char>, rs: seq<Run>, lo: nat, lo2: nat)
    requires lo2 <= lo && forall j :: 0 <= j < |rs| ==> RawOk(h, trigger, triggers, rs[j]) && lo <= rs[j].start
    ensures forall j :: 0 <= j < |rs| ==> RawOk(h, trigger, triggers, rs[j]) && lo2 <= rs[j].start
  {
  }

  /** A raw run in front of ordered raw runs that begin after it. */
  lemma {:induction false} RunsCons(h: string, trigger: char, triggers: seq<char>, r: Run, rs: seq<Run>)
    requires RawOk(h, trigger, triggers, r)
    requires Ordered(rs) && forall j :: 0 <= j < |rs| ==> RawOk(h, trigger, triggers, rs[j]) && r.stop <= rs[j].start
    ensures var ks := [r] + rs;
            Ordered(ks) && forall j :: 0 <= j < |ks| ==> RawOk(h, trigger, triggers, ks[j]) && r.start <= ks[j].start
  {
    OrderedCons(r, rs);
    var ks := [r] + rs;
    forall j | 0 <= j < |ks| ensures RawOk(h, trigger, triggers, ks[j]) && r.start <= ks[j].start {
      if j > 0 {
        assert ks[j] == rs[j - 1];
      }
    }
  }

  /** The runs `findTags` returns are well formed and ordered. */
  lemma {:induction false} TagRunsOk(h: string, trigger: char, triggers: seq<char>)
    requires trigger != MARK
    ensures var rs := TagRuns(h, trigger, triggers);
            Ordered(rs) && forall j :: 0 <= j < |rs| ==> TagOk(h, trigger, triggers, rs[j])
  {
    ScanFromOk(h, trigger, triggers, 0, None);
    KeepOk(h, trigger, triggers, RawRuns(h, trigger, triggers), 0);
  }

  /** A trimmed run that is kept is a well-formed tag inside the raw run. */
  lemma {:induction false} TrimOk(h: string, trigger: char, triggers: seq<char>, r: Run)
    requires trigger != MARK && RawOk(h, trigger, triggers, r)
    requires Trim(h, r).start + 1 != Trim(h, r).stop
    ensures TagOk(h, trigger, triggers, Trim(h, r)) && Trim(h, r).start == r.start && Trim(h, r).stop <= r.stop
  {
  }

  lemma {:induction false} KeepOk(h: string, trigger: char, triggers: seq<char>, rs: seq<Run>, lo: nat)
    requires trigger != MARK
    requires Ordered(rs) && forall j :: 0 <= j < |rs| ==> RawOk(h, trigger, triggers, rs[j]) && lo <= rs[j].start
    ensures var ks := Keep(h, rs);
            Ordered(ks) && forall j :: 0 <= j < |ks| ==> TagOk(h, trigger, triggers, ks[j]) && lo <= ks[j].start
  {
    if rs != [] {
      assert RawOk(h, trigger, triggers, rs[0]) && lo <= rs[0].start;
      RawTail(h, trigger, triggers, rs, lo);
      KeepOk(h, trigger, triggers, rs[1..], rs[0].stop);
      KeepHead(h, trigger, triggers, rs[0], Keep(h, rs[1..]), lo);
    }
  }

  /** The runs after the first begin where the first ends. */
  lemma {:induction false} RawTail(h: string, trigger: char, triggers: seq<char>, rs: seq<Run>, lo: nat)
    requires rs != [] && Ordered(rs) && forall j :: 0 <= j < |rs| ==> RawOk(h, trigger, triggers, rs[j]) && lo <= rs[j].start
    ensures var tail := rs[1..];
            Ordered(tail) && forall j :: 0 <= j < |tail| ==> RawOk(h, trigger, triggers, tail[j]) && rs[0].stop <= tail[j].start
  {
    OrderedTail(rs);
    var tail := rs[1..];
    forall j | 0 <= j < |tail| ensures RawOk(h, trigger, triggers, tail[j]) && rs[0].stop <= tail[j].start {
      assert tail[j] == rs[j + 1];
    }
  }

  /** The first run, trimmed and kept or dropped, in front of the kept rest. */
  lemma {:induction false} KeepHead(h: string, trigger: char, triggers: seq<char>, r: Run, rest: seq<Run>, lo: nat)
    requires trigger != MARK && RawOk(h, trigger, triggers, r) && lo <= r.start
    requires Ordered(rest) && forall j :: 0 <= j < |rest| ==> TagOk(h, trigger, triggers, rest[j]) && r.stop <= rest[j].start
    ensures var t := Trim(h, r);
            var ks := (if t.start + 1 != t.stop then [t] else []) + rest;
            Ordered(ks) && forall j :: 0 <= j < |ks| ==> TagOk(h, trigger, triggers, ks[j]) && lo <= ks[j].start
  {
    var t := Trim(h, r);
    if t.start + 1 != t.stop {
      TrimOk(h, trigger, triggers, r);
      KeptHead(h, trigger, triggers, t, rest, lo, r.stop);
    } else {
      assert [] + rest == rest;
    }
  }

  lemma {:induction false} KeptHead(h: string, trigger: char, triggers: seq<char>, t: Run, rest: seq<Run>, lo: nat, stop: nat)
    requires TagOk(h, trigger, triggers, t) && lo <= t.start && t.stop <= stop
    requires Ordered(rest) && forall j :: 0 <= j < |rest| ==> TagOk(h, trigger, triggers, rest[j]) && stop <= rest[j].start
    ensures var ks := [t] + rest;
            Ordered(ks) && forall j :: 0 <= j < |ks| ==> TagOk(h, trigger, triggers, ks[j]) && lo <= ks[j].start
  {
    OrderedCons(t, rest);
    var ks := [t] + rest;
    forall j | 0 <= j < |ks| ensures TagOk(h, trigger, triggers, ks[j]) && lo <= ks[j].start {
      if j > 0 {
        assert ks[j] == rest[j - 1];
      }
    }
  }

  /** One step of the first loop of `findTags`, from state `start` to state `next`. */
  lemma {:induction false} ScanStep(h: string, trigger: char, triggers: seq<char>, i: nat, before: seq<Run>,
                                    start: Option<nat>, pushed: seq<Run>, next: Option<nat>)
    requires i < |h|
    requires pushed == if start.Some? && Breaks(h[i], triggers) then [Run(start.value, i)] else []
    requires next == var open := if pushed != [] then None else start;
                     if open.None? && h[i] == trigger then Some(i) else open
    ensures before + ScanFrom(h, trigger, triggers, i, start) == (before + pushed) + ScanFrom(h, trigger, triggers, i + 1, next)
  {
    var rest := ScanFrom(h, trigger, triggers, i + 1, next);
    assert ScanFrom(h, trigger, triggers, i, start) == pushed + rest;
    assert before + (pushed + rest) == (before + pushed) + rest;
  }

  /** One step of the second loop of `findTags`. */
  lemma {:induction false} KeepStep(h: string, ary: seq<Run>, j: nat, entries: seq<Run>)
    requires j < |ary|
    ensures var t := Trim(h, ary[j]);
            entries + Keep(h, ary[j..])
            == (entries + if t.start + 1 != t.stop then [t] else []) + Keep(h, ary[j + 1..])
  {
    assert ary[j..][0] == ary[j] && ary[j..][1..] == ary[j + 1..];
  }

  /**
   * `findTags(trigger, html, triggers)`: the runs of one left-to-right scan,
   * each with a trailing marker trimmed, the runs of length one dropped.
   */
  method FindTags(trigger: char, h: string, triggers: seq<char>) returns (entries: seq<Run>)
    ensures entries == TagRuns(h, trigger, triggers)
  {
    var ary := CollectRuns(trigger, h, triggers);
    entries := [];
    var j := 0;
    while j < |ary|
      invariant j <= |ary|
      invariant entries + Keep(h, ary[j..]) == Keep(h, ary)
    {
      var e := ary[j];
      KeepStep(h, ary, j, entries);
      if 0 < e.stop <= |h| && h[e.stop - 1] == MARK {
        e := Run(e.start, e.stop - 1);
      }
      assert e == Trim(h, ary[j]);
      if e.start + 1 != e.stop {
        entries := entries + [e];
      }
      j := j + 1;
    }
    assert ary[|ary|..] == [];
  }

  /** The first loop of `findTags`: open a run at the trigger, close it at the next breaking character. */
  method CollectRuns(trigger: char, h: string, triggers: seq<char>) returns (ary: seq<Run>)
    ensures ary == RawRuns(h, trigger, triggers)
  {
    var i := 0;
    var start: Option<nat> := None;
    ary := [];
    while i < |h|
      invariant i <= |h|
      invariant start.Some? ==> start.value < i
      invariant ary + ScanFrom(h, trigger, triggers, i, start) == RawRuns(h, trigger, triggers)
    {
      var e := h[i];
      ghost var before, open, pushed := ary, start, [];
      if start.Some? && Breaks(e, triggers) {
        pushed := [Run(start.value, i)];
        ary := ary + [Run(start.value, i)];
        start := None;
      }
      if start.None? && e == trigger {
        start := Some(i);
      }
      ScanStep(h, trigger, triggers, i, before, open, pushed, start);
      assert ary == before + pushed;
      i := i + 1;
    }
    if start.Some? {
      ary := ary + [Run(start.value, |h|)];
    }
  }

  // ---------------------------------------------------------------------
  // Removing the spans of a previous pass: `html.replace(/<\/?span[^>]*>/ig, '')`

  /** ASCII lower case: the `i` flag compares ASCII letters without case. */
  function Lower(c: char): char
  {
    if 'A' <= c <= 'Z' then (c as int + 32) as char else c
  }

  /** `span`, in any case, at the head of `t`. */
  predicate SpanName(t: string)
  {
    |t| >= 4 && Lower(t[0]) == 's' && Lower(t[1]) == 'p' && Lower(t[2]) == 'a' && Lower(t[3]) == 'n'
  }

  /** `<\/?span[^>]*>` matches at the head of `h`: the match runs to the first `>`. */
  predicate SpanTagAt(h: string)
  {
    h != [] && IsTagStart(h, 0)
    && var t := h[..TagEnd(h)];
       SpanName(if t[1] == '/' then t[2..] else t[1..])
  }

  /** Every opening and closing `span` tag removed, scanning left to right. */
  function StripSpans(h: string): string
    decreases |h|
  {
    if h == [] then []
    else if SpanTagAt(h) then StripSpans(h[TagEnd(h)..])
    else [h[0]] + StripSpans(h[1..])
  }

  /** The `<` at `p`, if there is one, is closed by a `>` later in `a`. */
  predicate ClosesAt(a: string, p: nat)
    requires p < |a|
  {
    a[p] == '<' ==> '>' in a[p..]
  }

  /** Every `<` in `a` is closed by a `>` later in `a`: no tag of `a` runs on past its end. */
  predicate Closed(a: string)
  {
    forall p :: 0 <= p < |a| ==> ClosesAt(a, p)
  }

  lemma {:induction false} ClosedDrop(a: string, k: nat)
    requires Closed(a) && k <= |a|
    ensures Closed(a[k..])
  {
    var b := a[k..];
    forall p | 0 <= p < |b| ensures ClosesAt(b, p) {
      assert ClosesAt(a, k + p);
      assert b[p..] == a[k + p..];
    }
  }

  lemma {:induction false} ClosedPlain(a: string)
    requires '<' !in a
    ensures Closed(a)
  {
    forall p | 0 <= p < |a| ensures ClosesAt(a, p) {
      assert a[p] in a;
    }
  }

  lemma {:induction false} ClosedAppend(a: string, b: string)
    requires Closed(a) && Closed(b)
    ensures Closed(a + b)
  {
    var h := a + b;
    forall p | 0 <= p < |h| ensures ClosesAt(h, p) {
      if p < |a| {
        if a[p] == '<' {
          assert ClosesAt(a, p);
          var q :| p <= q < |a| && a[q] == '>';
          assert h[q] == '>' && h[p..][q - p] == '>';
        }
      } else {
        assert ClosesAt(b, p - |a|);
        assert h[p..] == b[p - |a|..];
      }
    }
  }

  /** A closed block `m` inserted into closed markup leaves it closed. */
  lemma {:induction false} ClosedInsert(u: string, m: string, v: string)
    requires Closed(u + v) && Closed(m)
    ensures Closed(u + m + v)
  {
    var h := u + m + v;
    var g := u + v;
    forall p | 0 <= p < |h| ensures ClosesAt(h, p) {
      if h[p] == '<' {
        if p < |u| {
          assert g[p] == '<' && ClosesAt(g, p);
          var q :| p <= q < |g| && g[q] == '>';
          var q2 := if q < |u| then q else q + |m|;
          assert h[q2] == '>' && h[p..][q2 - p] == '>';
        } else if p < |u| + |m| {
          var d := p - |u|;
          assert m[d] == '<' && ClosesAt(m, d);
          var q :| d <= q < |m| && m[q] == '>';
          assert h[p..][q - d] == '>';
        } else {
          var d := p - |m|;
          assert g[d] == '<' && ClosesAt(g, d);
          var q :| d <= q < |g| && g[q] == '>';
          assert h[p..][q - d] == '>';
        }
      }
    }
  }

  /** The first occurrence in `a` is the first in `a + b`. */
  lemma {:induction false} IndexOfAppend(a: string, b: string, c: char)
    requires c in a
    ensures IndexOf(a + b, c) == IndexOf(a, c)
  {
    var v := IndexOf(a, c);
    assert (a + b)[..v] == a[..v];
    IndexOfUnique(a + b, c, v);
  }

  /** A tag that closes inside `a` reads the same in `a + b`. */
  lemma {:induction false} TagEndAppend(a: string, b: string)
    requires a != [] && IsTagStart(a, 0)
    ensures IsTagStart(a + b, 0) && TagEnd(a + b) == TagEnd(a)
    ensures (a + b)[..TagEnd(a)] == a[..TagEnd(a)] && (a + b)[TagEnd(a)..] == a[TagEnd(a)..] + b
  {
    assert a[0..] == a && (a + b)[0..] == a + b;
    IndexOfAppend(a, b, '>');
  }

  /** Whether a span tag starts `a` is decided inside the tag. */
  lemma {:induction false} SpanTagAtAppend(a: string, b: string)
    requires a != [] && IsTagStart(a, 0)
    ensures SpanTagAt(a + b) == SpanTagAt(a)
    ensures SpanTagAt(a) ==> TagEnd(a + b) == TagEnd(a) && (a + b)[TagEnd(a)..] == a[TagEnd(a)..] + b
  {
    TagEndAppend(a, b);
  }

  /** A span tag at the head is dropped whole. */
  lemma {:induction false} StripSpansSkip(h: string)
    requires SpanTagAt(h)
    ensures StripSpans(h) == StripSpans(h[TagEnd(h)..])
  {
  }

  /** Anything else at the head is kept. */
  lemma {:induction false} StripSpansKeep(h: string)
    requires h != [] && !SpanTagAt(h)
    ensures StripSpans(h) == [h[0]] + StripSpans(h[1..])
  {
  }

  /** Over a closed prefix, stripping spans works part by part. */
  lemma {:induction false} StripSpansAppend(a: string, b: string)
    requires Closed(a)
    ensures StripSpans(a + b) == StripSpans(a) + StripSpans(b)
    decreases |a|, 1
  {
    if a == [] {
      assert a + b == b;
    } else if SpanTagAt(a) {
      StripAppendSpan(a, b);
    } else {
      StripAppendChar(a, b);
    }
  }

  lemma {:induction false} StripAppendSpan(a: string, b: string)
    requires Closed(a) && SpanTagAt(a)
    ensures StripSpans(a + b) == StripSpans(a) + StripSpans(b)
    decreases |a|, 0
  {
    var n := TagEnd(a);
    SpanTagAtAppend(a, b);
    ClosedDrop(a, n);
    StripSpansAppend(a[n..], b);
    StripSpansSkip(a + b);
    StripSpansSkip(a);
  }

  lemma {:induction false} StripAppendChar(a: string, b: string)
    requires Closed(a) && a != [] && !SpanTagAt(a)
    ensures StripSpans(a + b) == StripSpans(a) + StripSpans(b)
    decreases |a|, 0
  {
    StripCons(a, b);
    ClosedDrop(a, 1);
    StripSpansAppend(a[1..], b);
    StripSpansKeep(a);
    ConsAssoc(a[0], StripSpans(a + b), StripSpans(a[1..] + b), StripSpans(a), StripSpans(a[1..]), StripSpans(b));
  }

  lemma {:induction false} ConsAssoc(c: char, ch: string, t: string, ca: string, x: string, y: string)
    requires ch == [c] + t && t == x + y && ca == [c] + x
    ensures ch == ca + y
  {
  }

  /** Past a head that is not a span tag in closed `a`, stripping `a + b` goes on in `a[1..] + b`. */
  lemma {:induction false} StripCons(a: string, b: string)
    requires Closed(a) && a != [] && !SpanTagAt(a)
    ensures StripSpans(a + b) == [a[0]] + StripSpans(a[1..] + b)
  {
    var h := a + b;
    NotSpanHead(a, b);
    StripSpansKeep(h);
    assert h[1..] == a[1..] + b;
  }

  /** A head that is not a span tag in closed `a` is not one in `a + b` either. */
  lemma {:induction false} NotSpanHead(a: string, b: string)
    requires Closed(a) && a != [] && !SpanTagAt(a)
    ensures !SpanTagAt(a + b) && (a + b)[0] == a[0]
  {
    if a[0] == '<' {
      assert a[0..] == a && ClosesAt(a, 0);
      SpanTagAtAppend(a, b);
    }
  }

  /** Over a closed prefix, the visible text is taken part by part. */
  lemma {:induction false} VisibleAppend(a: string, b: string)
    requires Closed(a)
    ensures Visible(a + b) == Visible(a) + Visible(b)
    decreases |a|, 1
  {
    if a == [] {
      assert a + b == b;
    } else if a[0] == '<' {
      VisibleAppendTag(a, b);
    } else {
      VisibleAppendChar(a, b);
    }
  }

  lemma {:induction false} VisibleAppendTag(a: string, b: string)
    requires Closed(a) && a != [] && a[0] == '<'
    ensures Visible(a + b) == Visible(a) + Visible(b)
    decreases |a|, 0
  {
    assert a[0..] == a && ClosesAt(a, 0);
    TagEndAppend(a, b);
    var n := TagEnd(a);
    ClosedDrop(a, n);
    VisibleAppend(a[n..], b);
  }

  lemma {:induction false} VisibleAppendChar(a: string, b: string)
    requires Closed(a) && a != [] && a[0] != '<'
    ensures Visible(a + b) == Visible(a) + Visible(b)
    decreases |a|, 0
  {
    var h := a + b;
    assert h[0] == a[0] && h[1..] == a[1..] + b;
    VisibleStep(h);
    VisibleStep(a);
    ClosedDrop(a, 1);
    VisibleAppend(a[1..], b);
    ConsAssoc(a[0], Visible(h), Visible(h[1..]), Visible(a), Visible(a[1..]), Visible(b));
  }

  /** Text without `<` holds no span to strip. */
  lemma {:induction false} StripSpansPlain(a: string)
    requires '<' !in a
    ensures StripSpans(a) == a
    decreases |a|
  {
    if a != [] {
      assert a[0] != '<';
      StripSpansPlain(a[1..]);
    }
  }

  // ---------------------------------------------------------------------
  // The markup a pass inserts

  /** Decimal digits of `n`, as `'' + n` writes them. */
  function Digits(n: nat): (s: string)
    ensures s != [] && forall i :: 0 <= i < |s| ==> '0' <= s[i] <= '9'
  {
    if n < 10 then [('0' as int + n) as char]
    else Digits(n / 10) + [('0' as int + n % 10) as char]
  }

  const OPEN_NAME: string := "span class=\"tag tag"
  const CLOSE_TAG: string := "</span>"

  /** `'<span class="tag tag' + n + '">'`. */
  function OpenTag(n: nat): string
  {
    "<" + OPEN_NAME + Digits(n) + "\">"
  }

  /**
   * A trigger that can be used: an ASCII punctuation character (so that
   * `'\\' + trigger` is that literal character in a regular expression)
   * that does not occur in the inserted markup.
   */
  predicate SafeTrigger(c: char)
  {
    IsPunct(c) && c != '<' && c != '>' && c != '/' && c != '=' && c != '"'
  }

  predicate SafeTriggers(triggers: seq<char>)
  {
    forall j :: 0 <= j < |triggers| ==> SafeTrigger(triggers[j])
  }

  /** The characters inside the inserted tags. */
  predicate InnerChar(c: char)
  {
    ('a' <= c <= 'z') || ('0' <= c <= '9') || c == ' ' || c == '=' || c == '"' || c == '/'
  }

  predicate AllInner(s: string)
  {
    forall i :: 0 <= i < |s| ==> InnerChar(s[i])
  }

  /** A single complete tag, built from inner characters, that the span pattern matches. */
  predicate SpanMarkup(o: string)
  {
    |o| >= 2 && o[0] == '<' && o[|o| - 1] == '>' && AllInner(o[1..|o| - 1])
    && SpanName(if o[1] == '/' then o[2..] else o[1..])
  }

  lemma {:induction false} OpenNameInner()
    ensures AllInner(OPEN_NAME) && SpanName(OPEN_NAME) && OPEN_NAME[0] == 's'
  {
    forall c | c in OPEN_NAME ensures InnerChar(c) {
    }
  }

  lemma {:induction false} OpenTagMarkup(n: nat)
    ensures SpanMarkup(OpenTag(n))
  {
    var o := OpenTag(n);
    var d := Digits(n);
    OpenNameInner();
    var mid := OPEN_NAME + d + "\"";
    assert o == "<" + mid + ">";
    assert o[1..|o| - 1] == mid;
    forall i | 0 <= i < |mid| ensures InnerChar(mid[i]) {
      if i < |OPEN_NAME| {
        assert mid[i] == OPEN_NAME[i];
      } else if i < |OPEN_NAME| + |d| {
        assert mid[i] == d[i - |OPEN_NAME|];
      }
    }
    assert o[1..] == OPEN_NAME + (d + "\">");
  }

  lemma {:induction false} CloseTagMarkup()
    ensures SpanMarkup(CLOSE_TAG)
  {
    assert CLOSE_TAG[2..] == "span>";
    assert CLOSE_TAG[1..|CLOSE_TAG| - 1] == "/span";
  }

  /** Inserted markup disappears under stripping, is invisible and holds no trigger. */
  lemma {:induction false} SpanMarkupVanishes(o: string, x: string)
    requires SpanMarkup(o)
    ensures StripSpans(o + x) == StripSpans(x) && Visible(o + x) == Visible(x) && Closed(o)
    ensures forall i :: 0 <= i < |o| ==> !SafeTrigger(o[i])
  {
    SpanMarkupChars(o);
    SpanMarkupStrip(o, x);
    VisibleOfTag(o, x);
    forall p | 0 <= p < |o| ensures ClosesAt(o, p) {
      assert o[p..][|o| - 1 - p] == '>';
    }
  }

  /** The characters of inserted markup: no trigger, and no `<` or `>` inside. */
  lemma {:induction false} SpanMarkupChars(o: string)
    requires SpanMarkup(o)
    ensures forall i :: 0 <= i < |o| ==> !SafeTrigger(o[i])
    ensures WellFormedNode(Tag(o))
  {
    var mid := o[1..|o| - 1];
    forall i | 0 <= i < |o| ensures !SafeTrigger(o[i]) && (0 < i < |o| - 1 ==> o[i] != '<' && o[i] != '>') {
      if 0 < i < |o| - 1 {
        assert o[i] == mid[i - 1] && InnerChar(mid[i - 1]);
      }
    }
    assert '<' !in mid && '>' !in mid by {
      forall j | 0 <= j < |mid| ensures mid[j] != '<' && mid[j] != '>' {
        assert mid[j] == o[j + 1];
      }
    }
  }

  /** Inserted markup at the head is one span tag, dropped whole. */
  lemma {:induction false} SpanMarkupStrip(o: string, x: string)
    requires SpanMarkup(o) && WellFormedNode(Tag(o))
    ensures StripSpans(o + x) == StripSpans(x)
  {
    var h := o + x;
    assert h[..|o| - 1] == o[..|o| - 1];
    IndexOfUnique(h, '>', |o| - 1);
    assert h[0..] == h;
    assert h[..TagEnd(h)] == o;
    assert SpanTagAt(h);
    assert h[|o|..] == x;
    StripSpansSkip(h);
  }

  // ---------------------------------------------------------------------
  // Wrapping the runs

  /** `h.substring(a, b)`: both ends clamped to the length, swapped when reversed. */
  function Sub(h: string, a: nat, b: nat): (r: string)
    ensures |r| <= |h|
  {
    var x := if a < |h| then a else |h|;
    var y := if b < |h| then b else |h|;
    if x <= y then h[x..y] else h[y..x]
  }

  /** One step of the inner loop of the default callback: run `r` wrapped in a span of class `tag<n>`. */
  function WrapRun(h: string, r: Run, n: nat): string
  {
    Sub(h, 0, r.start) + OpenTag(n) + Sub(h, r.start, r.stop) + CLOSE_TAG + Sub(h, r.stop, |h|)
  }

  /** The inner loop: the runs wrapped from the last to the first. */
  function WrapDown(h: string, rs: seq<Run>, n: nat): string
  {
    if rs == [] then h else WrapRun(WrapDown(h, rs[1..], n), rs[0], n)
  }

  /** The outer loop from trigger `i` on: each pass scans the output of the one before. */
  function Passes(triggers: seq<char>, h: string, i: nat): string
    decreases |triggers| - i
  {
    if i >= |triggers| then h
    else Passes(triggers, WrapDown(h, TagRuns(h, triggers[i], triggers), i + 1), i + 1)
  }

  /** What the default callback writes back into the element. */
  function Highlight(triggers: seq<char>, html: string): string
  {
    Passes(triggers, StripSpans(html), 0)
  }

  /**
   * The default callback: strip the old spans, then for each trigger find
   * its runs in the current markup and wrap them right to left.
   */
  method DefaultCallback(triggers: seq<char>, html: string) returns (out: string)
    ensures out == Highlight(triggers, html)
  {
    var h := StripSpans(html);
    for i := 0 to |triggers|
      invariant Passes(triggers, h, i) == Highlight(triggers, html)
    {
      var tags := FindTags(triggers[i], h, triggers);
      h := WrapTags(h, tags, i + 1);
    }
    out := h;
  }

  /** The inner loop of the default callback: the runs wrapped from the last to the first. */
  method WrapTags(html: string, tags: seq<Run>, n: nat) returns (h: string)
    ensures h == WrapDown(html, tags, n)
  {
    h := html;
    var j := |tags| - 1;
    while j >= 0
      invariant -1 <= j < |tags|
      invariant h == WrapDown(html, tags[j + 1..], n)
    {
      var e := tags[j];
      assert tags[j..][0] == e && tags[j..][1..] == tags[j + 1..];
      h := Sub(h, 0, e.start) + OpenTag(n) + Sub(h, e.start, e.stop) + CLOSE_TAG + Sub(h, e.stop, |h|);
      j := j - 1;
    }
    assert tags[0..] == tags;
  }

  /** Marker-prefix condition: every trigger in `h` is outside any tag left open before it. */
  predicate Guarded(h: string, triggers: seq<char>)
  {
    forall q :: 0 <= q < |h| && h[q] in triggers ==> Closed(h[..q])
  }

  lemma {:induction false} WrapRunSlices(h: string, r: Run, n: nat)
    requires r.start <= r.stop <= |h|
    ensures WrapRun(h, r, n) == h[..r.start] + OpenTag(n) + h[r.start..r.stop] + CLOSE_TAG + h[r.stop..]
  {
    assert h[0..r.start] == h[..r.start] && h[r.stop..|h|] == h[r.stop..];
  }

  /** Wrapping adds the two tags and leaves everything before the run in place. */
  lemma {:induction false} WrapRunPrefix(h: string, r: Run, n: nat)
    requires r.start <= r.stop <= |h|
    ensures |WrapRun(h, r, n)| == |h| + |OpenTag(n)| + |CLOSE_TAG|
    ensures WrapRun(h, r, n)[..r.start] == h[..r.start]
  {
    WrapRunSlices(h, r, n);
  }

  /** Wrapping runs that start at `k` or later leaves the first `k` characters in place. */
  lemma {:induction false} WrapDownPrefix(h: string, rs: seq<Run>, n: nat, k: nat)
    requires forall j :: 0 <= j < |rs| ==> k <= rs[j].start <= rs[j].stop <= |h|
    ensures |WrapDown(h, rs, n)| >= |h|
    ensures k <= |h| ==> WrapDown(h, rs, n)[..k] == h[..k]
  {
    if rs != [] {
      var w := WrapDown(h, rs[1..], n);
      var r := rs[0];
      forall j | 0 <= j < |rs[1..]| ensures k <= rs[1..][j].start <= rs[1..][j].stop <= |h| {
        assert rs[1..][j] == rs[j + 1];
      }
      WrapDownPrefix(h, rs[1..], n, k);
      WrapRunPrefix(w, r, n);
      assert WrapDown(h, rs, n) == WrapRun(w, r, n);
      if k <= |h| {
        ShorterPrefix(WrapRun(w, r, n), w, r.start, k);
      }
    }
  }

  /** Strings that agree on their first `s` characters agree on any shorter prefix. */
  lemma {:induction false} ShorterPrefix(x: string, y: string, s: nat, k: nat)
    requires k <= s <= |x| && s <= |y| && x[..s] == y[..s]
    ensures x[..k] == y[..k]
  {
    assert x[..k] == x[..s][..k] && y[..k] == y[..s][..k];
  }

  /** Wrapping one run changes neither the span-stripped markup nor the visible text. */
  lemma {:induction false} WrapRunKeeps(h: string, r: Run, n: nat)
    requires r.start <= r.stop <= |h| && Closed(h[..r.start]) && '<' !in h[r.start..r.stop]
    ensures StripSpans(WrapRun(h, r, n)) == StripSpans(h)
    ensures Visible(WrapRun(h, r, n)) == Visible(h)
  {
    WrapRunSlices(h, r, n);
    var a, m, c := h[..r.start], h[r.start..r.stop], h[r.stop..];
    var o := OpenTag(n);
    var w := a + (o + (m + (CLOSE_TAG + c)));
    assert WrapRun(h, r, n) == w;
    assert h == a + (m + c);
    OpenTagMarkup(n);
    CloseTagMarkup();
    ClosedPlain(m);
    SpanMarkupVanishes(o, m + (CLOSE_TAG + c));
    SpanMarkupVanishes(CLOSE_TAG, c);
    assert StripSpans(w) == StripSpans(h) by {
      StripSpansAppend(a, o + (m + (CLOSE_TAG + c)));
      StripSpansAppend(m, CLOSE_TAG + c);
      StripSpansAppend(a, m + c);
      StripSpansAppend(m, c);
    }
    assert Visible(w) == Visible(h) by {
      VisibleAppend(a, o + (m + (CLOSE_TAG + c)));
      VisibleAppend(m, CLOSE_TAG + c);
      VisibleAppend(a, m + c);
      VisibleAppend(m, c);
    }
  }

  lemma {:induction false} ClosedMid(a: string, o: string, m: string, d: nat)
    requires Closed(a) && Closed(o) && '<' !in m && d <= |m|
    ensures Closed(a + o + m[..d])
  {
    ClosedPlain(m[..d]);
    ClosedAppend(a, o);
    ClosedAppend(a + o, m[..d]);
  }

  lemma {:induction false} ClosedEnd(a: string, o: string, m: string, cl: string, c: string, d: nat)
    requires d <= |c| && Closed(a + m + c[..d]) && Closed(o) && Closed(cl)
    ensures Closed(a + o + m + cl + c[..d])
  {
    assert a + m + c[..d] == a + (m + c[..d]);
    ClosedInsert(a, o, m + c[..d]);
    assert (a + o + m) + c[..d] == a + o + (m + c[..d]);
    ClosedInsert(a + o + m, cl, c[..d]);
  }

  /** Where a character of the spliced string `a + o + m + cl + c` comes from. */
  lemma {:induction false} SpliceIndex(a: string, m: string, c: string, o: string, cl: string, q: nat)
    requires q < |a + o + m + cl + c|
    ensures var w := a + o + m + cl + c;
            var h := a + m + c;
            (q < |a| ==> w[q] == h[q] && w[..q] == h[..q])
            && (|a| <= q < |a| + |o| ==> w[q] == o[q - |a|])
            && (|a| + |o| <= q < |a| + |o| + |m| ==> w[..q] == a + o + m[..q - |a| - |o|])
            && (|a| + |o| + |m| <= q < |a| + |o| + |m| + |cl| ==> w[q] == cl[q - |a| - |o| - |m|])
  {
    var w := a + o + m + cl + c;
    if |a| + |o| <= q < |a| + |o| + |m| {
      assert w[..q] == a + o + m[..q - |a| - |o|];
    }
  }

  lemma {:induction false} SpliceTail(a: string, m: string, c: string, o: string, cl: string, q: nat)
    requires |a| + |o| + |m| + |cl| <= q < |a + o + m + cl + c|
    ensures var d := q - |a| - |o| - |m| - |cl|;
            var w := a + o + m + cl + c;
            var h := a + m + c;
            d < |c| && w[q] == h[|a| + |m| + d]
            && h[..|a| + |m| + d] == a + m + c[..d] && w[..q] == a + o + m + cl + c[..d]
  {
  }

  lemma {:induction false} NotTrigger(x: char, triggers: seq<char>)
    requires SafeTriggers(triggers) && !SafeTrigger(x)
    ensures x !in triggers
  {
  }

  /** Splicing two tags around a `<`-free middle keeps every trigger outside the tags before it. */
  lemma {:induction false} GuardedSplice(a: string, m: string, c: string, o: string, cl: string, triggers: seq<char>)
    requires Closed(a) && '<' !in m && SpanMarkup(o) && SpanMarkup(cl) && SafeTriggers(triggers)
    requires Guarded(a + m + c, triggers)
    ensures Guarded(a + o + m + cl + c, triggers)
  {
    var h := a + m + c;
    var w := a + o + m + cl + c;
    SpanMarkupVanishes(o, []);
    SpanMarkupVanishes(cl, []);
    forall q | 0 <= q < |w| ensures w[q] in triggers ==> Closed(w[..q]) {
      SpliceIndex(a, m, c, o, cl, q);
      if q < |a| {
        assert w[q] in triggers ==> h[q] in triggers;
      } else if q < |a| + |o| {
        NotTrigger(o[q - |a|], triggers);
      } else if q < |a| + |o| + |m| {
        ClosedMid(a, o, m, q - |a| - |o|);
      } else if q < |a| + |o| + |m| + |cl| {
        NotTrigger(cl[q - |a| - |o| - |m|], triggers);
      } else {
        SpliceTail(a, m, c, o, cl, q);
        var d := q - |a| - |o| - |m| - |cl|;
        if w[q] in triggers {
          ClosedEnd(a, o, m, cl, c, d);
        }
      }
    }
  }

  /** Wrapping one run keeps every trigger outside the tags before it. */
  lemma {:induction false} WrapRunGuarded(h: string, r: Run, n: nat, triggers: seq<char>)
    requires r.start <= r.stop <= |h| && Closed(h[..r.start]) && '<' !in h[r.start..r.stop]
    requires Guarded(h, triggers) && SafeTriggers(triggers)
    ensures Guarded(WrapRun(h, r, n), triggers)
  {
    WrapRunSlices(h, r, n);
    var a, m, c := h[..r.start], h[r.start..r.stop], h[r.stop..];
    assert h == a + m + c;
    OpenTagMarkup(n);
    CloseTagMarkup();
    GuardedSplice(a, m, c, OpenTag(n), CLOSE_TAG, triggers);
  }

  /** The runs of one pass satisfy what wrapping them needs. */
  lemma {:induction false} RunReady(h: string, trigger: char, triggers: seq<char>, r: Run)
    requires SafeTriggers(triggers) && SafeTrigger(trigger) && trigger in triggers
    requires Guarded(h, triggers) && TagOk(h, trigger, triggers, r)
    ensures Closed(h[..r.start]) && '<' !in h[r.start..r.stop]
  {
    forall q | r.start <= q < r.stop ensures h[q] != '<' {
    }
    assert forall i :: 0 <= i < |h[r.start..r.stop]| ==> h[r.start..r.stop][i] == h[r.start + i];
  }

  /**
   * Wrapping the runs of one pass, right to left, keeps the span-stripped
   * markup, the visible text, and every trigger outside the tags before it.
   */
  lemma {:induction false} WrapDownKeeps(h: string, rs: seq<Run>, n: nat, trigger: char, triggers: seq<char>)
    requires SafeTriggers(triggers) && SafeTrigger(trigger) && trigger in triggers && Guarded(h, triggers)
    requires Ordered(rs) && forall j :: 0 <= j < |rs| ==> TagOk(h, trigger, triggers, rs[j])
    ensures var w := WrapDown(h, rs, n);
            StripSpans(w) == StripSpans(h) && Visible(w) == Visible(h) && Guarded(w, triggers)
  {
    if rs != [] {
      var r := rs[0];
      var tail := rs[1..];
      OrderedTail(rs);
      forall j | 0 <= j < |tail| ensures TagOk(h, trigger, triggers, tail[j]) && r.stop <= tail[j].start {
        assert tail[j] == rs[j + 1];
      }
      WrapDownKeeps(h, tail, n, trigger, triggers);
      var w := WrapDown(h, tail, n);
      WrapDownPrefix(h, tail, n, r.stop);
      assert TagOk(h, trigger, triggers, r);
      RunReady(h, trigger, triggers, r);
      assert w[..r.start] == h[..r.start] && w[r.start..r.stop] == h[r.start..r.stop] by {
        assert w[..r.start] == w[..r.stop][..r.start] && h[..r.start] == h[..r.stop][..r.start];
        assert w[r.start..r.stop] == w[..r.stop][r.start..] && h[r.start..r.stop] == h[..r.stop][r.start..];
      }
      WrapRunKeeps(w, r, n);
      WrapRunGuarded(w, r, n, triggers);
    }
  }

  /** Every pass from trigger `i` on keeps the span-stripped markup and the visible text. */
  lemma {:induction false} PassesKeep(triggers: seq<char>, h: string, i: nat)
    requires SafeTriggers(triggers) && Guarded(h, triggers)
    ensures var w := Passes(triggers, h, i);
            StripSpans(w) == StripSpans(h) && Visible(w) == Visible(h) && Guarded(w, triggers)
    decreases |triggers| - i
  {
    if i < |triggers| {
      var t := triggers[i];
      assert SafeTrigger(t) && t != MARK;
      TagRunsOk(h, t, triggers);
      var rs := TagRuns(h, t, triggers);
      WrapDownKeeps(h, rs, i + 1, t, triggers);
      PassesKeep(triggers, WrapDown(h, rs, i + 1), i + 1);
    }
  }

  // ---------------------------------------------------------------------
  // The callback on the element's markup, spans of earlier passes included

  /** An opening or closing `span` tag node: what the first step of the callback removes. */
  predicate SpanNode(n: Node)
  {
    n.Tag? && SpanTagAt(n.markup)
  }

  /** The nodes without their `span` tags. */
  function DropSpans(nodes: seq<Node>): (r: seq<Node>)
    ensures forall i :: 0 <= i < |r| ==> r[i] in nodes && !SpanNode(r[i])
  {
    if nodes == [] then []
    else if SpanNode(nodes[0]) then DropSpans(nodes[1..])
    else [nodes[0]] + DropSpans(nodes[1..])
  }

  /** No tag holds a trigger: the triggers appear in text nodes only. */
  predicate TagsFree(nodes: seq<Node>, triggers: seq<char>)
  {
    forall i, j :: 0 <= i < |nodes| && 0 <= j < |triggers| && nodes[i].Tag? ==> triggers[j] !in nodes[i].markup
  }

  /** A well-formed tag is one tag: it ends at its own last character. */
  lemma {:induction false} TagWhole(m: string)
    requires WellFormedNode(Tag(m))
    ensures IsTagStart(m, 0) && TagEnd(m) == |m|
  {
    assert m[0..] == m && m[0..][|m| - 1] == '>';
  }

  /** A well-formed tag is closed: its only `<` is the first character. */
  lemma {:induction false} TagClosed(m: string)
    requires WellFormedNode(Tag(m))
    ensures Closed(m)
  {
    forall p | 0 <= p < |m| ensures ClosesAt(m, p) {
      if p == 0 {
        assert m[0..][|m| - 1] == '>';
      } else if p < |m| - 1 {
        assert m[p] == m[1..|m| - 1][p - 1];
      }
    }
  }

  /** A well-formed tag is closed, and stripping removes it whole or keeps it whole. */
  lemma {:induction false} TagStrip(m: string)
    requires WellFormedNode(Tag(m))
    ensures Closed(m) && StripSpans(m) == if SpanTagAt(m) then [] else m
  {
    TagClosed(m);
    if SpanTagAt(m) {
      SpanTagStrip(m);
    } else {
      OtherTagStrip(m);
    }
  }

  lemma {:induction false} SpanTagStrip(m: string)
    requires WellFormedNode(Tag(m)) && SpanTagAt(m)
    ensures StripSpans(m) == []
  {
    TagWhole(m);
    StripSpansSkip(m);
    assert m[|m|..] == [];
  }

  lemma {:induction false} OtherTagStrip(m: string)
    requires WellFormedNode(Tag(m)) && !SpanTagAt(m)
    ensures StripSpans(m) == m
  {
    var t := m[1..];
    TagTailPlain(m);
    StripSpansPlain(t);
    StripSpansKeep(m);
    assert m == [m[0]] + t;
  }

  /** Past its `<`, a well-formed tag has no other. */
  lemma {:induction false} TagTailPlain(m: string)
    requires WellFormedNode(Tag(m))
    ensures '<' !in m[1..]
  {
    assert m[1..] == m[1..|m| - 1] + [m[|m| - 1]];
  }

  /** One well-formed node: closed, and stripped to itself or, for a `span` tag, to nothing. */
  lemma {:induction false} NodeStrip(n: Node)
    requires WellFormedNode(n)
    ensures Closed(NodeMarkup(n)) && StripSpans(NodeMarkup(n)) == Serialize(DropSpans([n]))
  {
    match n
    case Text(s) =>
      ClosedPlain(s);
      StripSpansPlain(s);
      assert DropSpans([n]) == [n] + DropSpans([]);
    case Tag(m) =>
      TagStrip(m);
      assert DropSpans([n]) == (if SpanNode(n) then [] else [n]) + DropSpans([]);
  }

  /** Dropping the spans node by node. */
  lemma {:induction false} DropSpansCons(nodes: seq<Node>)
    requires nodes != []
    ensures DropSpans(nodes) == DropSpans([nodes[0]]) + DropSpans(nodes[1..])
  {
    var x := [nodes[0]];
    assert x[0] == nodes[0] && x[1..] == [];
    assert DropSpans(x) == if SpanNode(nodes[0]) then [] else x;
  }

  /** Stripping the spans of well-formed markup removes exactly its `span` nodes. */
  lemma {:induction false} StripSpansSerialize(nodes: seq<Node>)
    requires WellFormed(nodes)
    ensures StripSpans(Serialize(nodes)) == Serialize(DropSpans(nodes))
  {
    if nodes != [] {
      assert WellFormedNode(nodes[0]);
      assert WellFormed(nodes[1..]) by {
        forall i | 0 <= i < |nodes[1..]| ensures WellFormedNode(nodes[1..][i]) {
          assert nodes[1..][i] == nodes[i + 1];
        }
      }
      StripSpansSerialize(nodes[1..]);
      NodeStrip(nodes[0]);
      StripSpansAppend(NodeMarkup(nodes[0]), Serialize(nodes[1..]));
      DropSpansCons(nodes);
      SerializeAppend(DropSpans([nodes[0]]), DropSpans(nodes[1..]));
    }
  }

  /** Dropping the spans keeps the text, the well-formedness and the trigger-free tags. */
  lemma {:induction false} DropSpansKeeps(nodes: seq<Node>, triggers: seq<char>)
    requires WellFormed(nodes) && TagsFree(nodes, triggers)
    ensures var d := DropSpans(nodes);
            WellFormed(d) && TagsFree(d, triggers) && TextContent(d) == TextContent(nodes)
  {
    var d := DropSpans(nodes);
    forall i | 0 <= i < |d| ensures WellFormedNode(d[i]) {
      var k :| 0 <= k < |nodes| && nodes[k] == d[i];
    }
    forall i, j | 0 <= i < |d| && 0 <= j < |triggers| && d[i].Tag? ensures triggers[j] !in d[i].markup {
      var k :| 0 <= k < |nodes| && nodes[k] == d[i];
    }
    DropSpansText(nodes);
  }

  lemma {:induction false} DropSpansText(nodes: seq<Node>)
    ensures TextContent(DropSpans(nodes)) == TextContent(nodes)
  {
    if nodes != [] {
      var d := DropSpans(nodes[1..]);
      DropSpansText(nodes[1..]);
      assert TextContent(nodes) == NodeText(nodes[0]) + TextContent(nodes[1..]);
      if SpanNode(nodes[0]) {
        assert DropSpans(nodes) == d && NodeText(nodes[0]) == [];
      } else {
        var e := [nodes[0]] + d;
        assert DropSpans(nodes) == e;
        assert e[0] == nodes[0] && e[1..] == d;
        assert TextContent(e) == NodeText(nodes[0]) + TextContent(d);
      }
    }
  }

  /** Without spans, there is nothing to drop. */
  lemma {:induction false} DropSpansNone(nodes: seq<Node>)
    requires forall i :: 0 <= i < |nodes| ==> !SpanNode(nodes[i])
    ensures DropSpans(nodes) == nodes
  {
    if nodes != [] {
      DropSpansNone(nodes[1..]);
      assert nodes == [nodes[0]] + nodes[1..];
    }
  }

  /** In well-formed markup whose tags hold no trigger, every trigger is outside the tags. */
  lemma {:induction false} SerializeGuarded(nodes: seq<Node>, triggers: seq<char>)
    requires WellFormed(nodes) && TagsFree(nodes, triggers)
    ensures Guarded(Serialize(nodes), triggers)
  {
    if nodes != [] {
      var a := NodeMarkup(nodes[0]);
      var s := Serialize(nodes[1..]);
      var h := a + s;
      assert WellFormedNode(nodes[0]);
      assert WellFormed(nodes[1..]) && TagsFree(nodes[1..], triggers) by {
        forall i | 0 <= i < |nodes[1..]| ensures nodes[1..][i] == nodes[i + 1] {
        }
      }
      SerializeGuarded(nodes[1..], triggers);
      assert Closed(a) by {
        match nodes[0]
        case Text(t) => ClosedPlain(t);
        case Tag(m) => TagStrip(m);
      }
      forall q | 0 <= q < |h| && h[q] in triggers ensures Closed(h[..q]) {
        if q < |a| {
          assert h[q] == a[q] && h[..q] == a[..q];
          var j :| 0 <= j < |triggers| && triggers[j] == h[q];
          assert nodes[0].Text?;
          assert '<' !in a[..q] by {
            forall c | c in a[..q] ensures c in a {
            }
          }
          ClosedPlain(a[..q]);
        } else {
          assert h[q] == s[q - |a|] && h[..q] == a + s[..q - |a|];
          ClosedAppend(a, s[..q - |a|]);
        }
      }
    }
  }

  /**
   * On well-formed markup whose tags hold no trigger, spans of earlier
   * passes included, removing the spans of the callback's output gives
   * the markup with its spans removed.
   */
  lemma {:induction false} HighlightStrips(triggers: seq<char>, nodes: seq<Node>)
    requires SafeTriggers(triggers) && WellFormed(nodes) && TagsFree(nodes, triggers)
    ensures var h := Serialize(nodes);
            StripSpans(Highlight(triggers, h)) == StripSpans(h) == Serialize(DropSpans(nodes))
  {
    var d := DropSpans(nodes);
    StripSpansSerialize(nodes);
    DropSpansKeeps(nodes, triggers);
    StripSpansSerialize(d);
    DropSpansNone(d);
    SerializeGuarded(d, triggers);
    PassesKeep(triggers, Serialize(d), 0);
  }

  /** The default callback changes no visible character, spans of earlier passes included. */
  lemma {:induction false} HighlightKeepsText(triggers: seq<char>, nodes: seq<Node>)
    requires SafeTriggers(triggers) && WellFormed(nodes) && TagsFree(nodes, triggers)
    ensures var h := Serialize(nodes);
            Visible(Highlight(triggers, h)) == Visible(h) == TextContent(nodes)
  {
    var d := DropSpans(nodes);
    StripSpansSerialize(nodes);
    DropSpansKeeps(nodes, triggers);
    SerializeGuarded(d, triggers);
    PassesKeep(triggers, Serialize(d), 0);
    VisibleSerialize(d);
    VisibleSerialize(nodes);
  }

  /** Running the default callback on its own output changes nothing. */
  lemma {:induction false} HighlightIdempotent(triggers: seq<char>, nodes: seq<Node>)
    requires SafeTriggers(triggers) && WellFormed(nodes) && TagsFree(nodes, triggers)
    ensures var w := Highlight(triggers, Serialize(nodes));
            Highlight(triggers, w) == w
  {
    HighlightStrips(triggers, nodes);
  }
}
