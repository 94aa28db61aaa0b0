/**
 * The caret-preserving rewrite (`retype` in dist/retype.js and retype.js):
 * put a marker at the caret, let a callback rewrite the container, find the
 * first text node that still holds the marker, and put the caret back there.
 *
 * The container is a `Container` object whose node list, selection and focus
 * flag the protocol changes in place; `Region` is its value, and the
 * functions `Marked`, `WithHtml` and `Relocate` say what each step makes of it.
 */
module Caret {
  import opened Text
  import opened Dom
  import opened Wrappers

  /** A caret boundary point: inside a text node, or between children of the container. */
  datatype Pos = InText(node: nat, offset: nat) | InContainer(index: nat)

  /** The window selection as it concerns the container. */
  datatype Selection = NoRange | Collapsed(pos: Pos) | Spanning

  /** The container's state: its nodes, the selection, and whether it is `document.activeElement`. */
  datatype Region = Region(nodes: seq<Node>, selection: Selection, focused: bool)

  predicate ValidPos(nodes: seq<Node>, p: Pos)
  {
    match p
    case InText(k, off) => k < |nodes| && nodes[k].Text? && off <= |nodes[k].text|
    case InContainer(i) => i <= |nodes|
  }

  predicate ValidRegion(r: Region)
  {
    r.selection.Collapsed? ==> ValidPos(r.nodes, r.selection.pos)
  }

  /** How many characters of text content lie before the position. */
  function CaretOffset(nodes: seq<Node>, p: Pos): nat
    requires ValidPos(nodes, p)
  {
    match p
    case InText(k, off) => |TextContent(nodes[..k])| + off
    case InContainer(i) => |TextContent(nodes[..i])|
  }

  predicate HasMark(n: Node)
  {
    n.Text? && MARK in n.text
  }

  /** `findCaretNode`: the first text node, in document order, holding the marker. */
  function FirstMarked(nodes: seq<Node>): (r: Option<nat>)
    ensures r.None? <==> forall j :: 0 <= j < |nodes| ==> !HasMark(nodes[j])
    ensures r.Some? ==> r.value < |nodes| && HasMark(nodes[r.value])
    ensures r.Some? ==> forall j :: 0 <= j < r.value ==> !HasMark(nodes[j])
  {
    if nodes == [] then None
    else if HasMark(nodes[0]) then Some(0)
    else
      match FirstMarked(nodes[1..])
      case None => None
      case Some(k) => Some(k + 1)
  }

  /** The tree walk of `findCaretNode`, as the loop the source runs. */
  method FindCaretNode(nodes: seq<Node>) returns (r: Option<nat>)
    ensures r == FirstMarked(nodes)
  {
    var i := 0;
    while i < |nodes|
      invariant 0 <= i <= |nodes|
      invariant forall j :: 0 <= j < i ==> !HasMark(nodes[j])
    {
      if HasMark(nodes[i]) {
        return Some(i);
      }
      i := i + 1;
    }
    return None;
  }

  /**
   * `range.insertNode(caret)`: a text position splits its node around a new
   * marker node; a container position inserts the marker node there.  The
   * range keeps its start, which stays valid.
   */
  function InsertAt(nodes: seq<Node>, p: Pos): seq<Node>
    requires ValidPos(nodes, p)
  {
    match p
    case InText(k, off) =>
      var s := nodes[k].text;
      nodes[..k] + [Text(s[..off]), Text([MARK]), Text(s[off..])] + nodes[k + 1..]
    case InContainer(i) => nodes[..i] + [Text([MARK])] + nodes[i..]
  }

  function Marked(r: Region): (m: Region)
    requires ValidRegion(r) && r.selection.Collapsed?
    ensures ValidRegion(m)
  {
    r.(nodes := InsertAt(r.nodes, r.selection.pos))
  }

  /**
   * Assigning markup (`.html(h)`, `innerHTML = …`): the children are
   * replaced by the parsed markup, and a range inside the container falls
   * back to the container's start.
   */
  function WithHtml(r: Region, h: string): (m: Region)
    ensures ValidRegion(m)
  {
    r.(nodes := Parse(h), selection := if r.selection.NoRange? then NoRange else Collapsed(InContainer(0)))
  }

  /** The three preconditions of dist/retype.js: a range exists, it is collapsed, the container has focus. */
  predicate Ready(r: Region)
  {
    r.selection.Collapsed? && r.focused
  }

  /** The node holding the marker is the container's only child and its text is the marker alone. */
  predicate LoneMarker(nodes: seq<Node>, k: nat)
  {
    |nodes| == 1 && TextContent(nodes) == [MARK] && k == 0
  }

  /**
   * Second half of `retype`: the lone-marker node is removed and the caret
   * put at the container's start; otherwise every marker leaves the first
   * marked node and the caret goes where its first marker was.  Without a
   * marked node nothing changes.
   */
  function Relocate(r: Region): (m: Region)
    ensures ValidRegion(r) ==> ValidRegion(m)
  {
    match FirstMarked(r.nodes)
    case None => r
    case Some(k) =>
      if LoneMarker(r.nodes, k) then
        r.(nodes := [], selection := Collapsed(InContainer(0)))
      else
        var s := r.nodes[k].text;
        StripAllKeepsPrefix(s);
        r.(nodes := r.nodes[k := Text(StripAll(s))], selection := Collapsed(InText(k, IndexOf(s, MARK))))
  }

  /** dist/retype.js `retype(container, callback)` as a function of the region. */
  function RetypeResult(r: Region, callback: string -> string): (m: Region)
    requires ValidRegion(r)
    ensures ValidRegion(m)
  {
    if !Ready(r) then r
    else
      var marked := Marked(r);
      var written := WithHtml(marked, callback(Serialize(marked.nodes)));
      Relocate(WithHtml(written, Serialize(written.nodes)))
  }

  /** retype.js `retype`: no focus check, no reflow; without a range `getRangeAt(0)` throws. */
  function LegacyRetypeResult(r: Region, callback: string -> string): (m: Region)
    requires ValidRegion(r) && !r.selection.NoRange?
    ensures ValidRegion(m)
  {
    if r.selection.Spanning? then r
    else
      var marked := Marked(r);
      Relocate(WithHtml(marked, callback(Serialize(marked.nodes))))
  }

  /** The editable element: its children, the selection in it, and its focus. */
  class Container {
    var nodes: seq<Node>
    var selection: Selection
    var focused: bool

    function State(): Region
      reads this
    {
      Region(nodes, selection, focused)
    }

    ghost predicate Valid()
      reads this
    {
      ValidRegion(State())
    }

    /** jQuery `.html()` */
    function Html(): string
      reads this
    {
      Serialize(nodes)
    }

    constructor (r: Region)
      requires ValidRegion(r)
      ensures Valid() && State() == r
    {
      nodes, selection, focused := r.nodes, r.selection, r.focused;
    }

    /** jQuery `.html(h)` */
    method SetHtml(h: string)
      requires Valid()
      modifies this
      ensures Valid() && State() == WithHtml(old(State()), h)
    {
      nodes := Parse(h);
      if !selection.NoRange? {
        selection := Collapsed(InContainer(0));
      }
    }

    /** `range.insertNode(caret)` */
    method InsertMarker()
      requires Valid() && selection.Collapsed?
      modifies this
      ensures Valid() && State() == Marked(old(State()))
    {
      nodes := InsertAt(nodes, selection.pos);
    }

    /** The guards of dist/retype.js:22-28, then the marker insertion. */
    method Begin() returns (ready: bool)
      requires Valid()
      modifies this
      ensures Valid() && ready == Ready(old(State()))
      ensures State() == if ready then Marked(old(State())) else old(State())
    {
      if selection.NoRange? || selection.Spanning? || !focused {
        return false;
      }
      InsertMarker();
      return true;
    }

    /** dist/retype.js:36-55 */
    method Restore()
      requires Valid()
      modifies this
      ensures Valid() && State() == Relocate(old(State()))
    {
      var found := FindCaretNode(nodes);
      match found {
        case None =>
        case Some(k) =>
          if |nodes| == 1 && TextContent(nodes) == [MARK] && k == 0 {
            nodes := [];
            selection := Collapsed(InContainer(0));
          } else {
            var s := nodes[k].text;
            var index := IndexOf(s, MARK);
            StripAllKeepsPrefix(s);
            nodes := nodes[k := Text(StripAll(s))];
            selection := Collapsed(InText(k, index));
          }
      }
    }

    /** dist/retype.js `retype`, for a callback that rewrites the markup. */
    method Retype(callback: string -> string)
      requires Valid()
      modifies this
      ensures Valid() && State() == RetypeResult(old(State()), callback)
    {
      var ready := Begin();
      if ready {
        SetHtml(callback(Html()));
        SetHtml(Html());
        Restore();
      }
    }

    /** retype.js `retype` */
    method LegacyRetype(callback: string -> string)
      requires Valid() && !selection.NoRange?
      modifies this
      ensures Valid() && State() == LegacyRetypeResult(old(State()), callback)
    {
      if selection.Spanning? {
        return;
      }
      InsertMarker();
      SetHtml(callback(Html()));
      Restore();
    }
  }

  // ---------------------------------------------------------------------
  // What relocation guarantees about the caret
  // ---------------------------------------------------------------------

  /** Some text node holds the marker exactly when the text content does. */
  lemma {:induction false} MarkInText(nodes: seq<Node>)
    ensures MARK in TextContent(nodes) <==> FirstMarked(nodes).Some?
  {
    if nodes != [] {
      MarkInText(nodes[1..]);
      assert TextContent(nodes) == NodeText(nodes[0]) + TextContent(nodes[1..]);
      assert MARK in NodeText(nodes[0]) <==> HasMark(nodes[0]);
    }
  }

  /** No node before the first marked one holds a marker. */
  lemma {:induction false} BeforeFirstMarked(nodes: seq<Node>, k: nat)
    requires FirstMarked(nodes) == Some(k)
    ensures MARK !in TextContent(nodes[..k])
  {
    assert FirstMarked(nodes[..k]).None? by {
      forall j | 0 <= j < k ensures !HasMark(nodes[..k][j]) {
        assert nodes[..k][j] == nodes[j];
      }
    }
    MarkInText(nodes[..k]);
  }

  /** The first marked node holds the first marker of the whole text content. */
  lemma {:induction false} FirstMarkedIndex(nodes: seq<Node>, k: nat)
    requires FirstMarked(nodes) == Some(k)
    ensures IndexOf(TextContent(nodes), MARK)
         == |TextContent(nodes[..k])| + IndexOf(nodes[k].text, MARK)
  {
    var s := nodes[k].text;
    var a := TextContent(nodes[..k]);
    var b := TextContent(nodes[k + 1..]);
    TextContentSplit(nodes, k);
    BeforeFirstMarked(nodes, k);
    var i := IndexOf(s, MARK);
    PrefixInMiddle(a, s, b, i);
    FirstIn(a, s, b, i);
  }

  /** A marker first found in the middle part is found at its offset in the whole. */
  lemma {:induction false} FirstIn(a: string, s: string, b: string, i: nat)
    requires i < |s| && s[i] == MARK && MARK !in s[..i] && MARK !in a
    ensures IndexOf(a + s + b, MARK) == |a| + i
  {
    var t := a + s + b;
    PrefixInMiddle(a, s, b, i);
    assert t[|a| + i] == MARK;
    IndexOfUnique(t, MARK, |a| + i);
  }

  /** Replacing one node's text changes the text content only there. */
  lemma {:induction false} ReplaceText(nodes: seq<Node>, k: nat, s2: string)
    requires k < |nodes| && nodes[k].Text?
    ensures var n2 := nodes[k := Text(s2)];
            && n2[..k] == nodes[..k]
            && TextContent(n2) == TextContent(nodes[..k]) + s2 + TextContent(nodes[k + 1..])
  {
    var n2 := nodes[k := Text(s2)];
    TextContentSplit(n2, k);
    assert n2[..k] == nodes[..k] && n2[k + 1..] == nodes[k + 1..];
  }

  /**
   * After relocation the caret stands exactly as many text characters into
   * the container as there were before the first marker, and that text is
   * unchanged.
   */
  lemma {:induction false} RelocateCaret(r: Region)
    requires MARK in TextContent(r.nodes)
    ensures var m := Relocate(r);
            var at := IndexOf(TextContent(r.nodes), MARK);
            && m.selection.Collapsed? && ValidPos(m.nodes, m.selection.pos)
            && CaretOffset(m.nodes, m.selection.pos) == at
            && at <= |TextContent(m.nodes)|
            && TextContent(m.nodes)[..at] == TextContent(r.nodes)[..at]
  {
    MarkInText(r.nodes);
    var k := FirstMarked(r.nodes).value;
    var t := TextContent(r.nodes);
    if LoneMarker(r.nodes, k) {
      assert t[0] == MARK;
      IndexOfUnique(t, MARK, 0);
    } else {
      StripCaret(r.nodes, k);
    }
  }

  /** The strip branch of relocation, in terms of the node list. */
  lemma {:induction false} StripCaret(nodes: seq<Node>, k: nat)
    requires FirstMarked(nodes) == Some(k)
    ensures var s := nodes[k].text;
            var n2 := nodes[k := Text(StripAll(s))];
            var at := IndexOf(TextContent(nodes), MARK);
            && IndexOf(s, MARK) <= |StripAll(s)|
            && CaretOffset(n2, InText(k, IndexOf(s, MARK))) == at
            && at <= |TextContent(n2)|
            && TextContent(n2)[..at] == TextContent(nodes)[..at]
  {
    var s := nodes[k].text;
    var i := IndexOf(s, MARK);
    var s2 := StripAll(s);
    var n2 := nodes[k := Text(s2)];
    StripAllKeepsPrefix(s);
    FirstMarkedIndex(nodes, k);
    ReplaceText(nodes, k, s2);
    TextContentSplit(nodes, k);
    var t1 := TextContent(nodes);
    var t2 := TextContent(n2);
    var a := TextContent(nodes[..k]);
    var b := TextContent(nodes[k + 1..]);
    assert t1 == a + s + b;
    assert t2 == a + s2 + b;
    SamePrefix(t1, t2, a, s, s2, b, i);
    var at := IndexOf(t1, MARK);
    assert at == |a| + i;
    assert t2[..|a| + i] == t1[..|a| + i];
    assert t2[..at] == t1[..at];
  }

  /** Inserting the marker puts it into the text content at the caret's offset. */
  lemma {:induction false} InsertAtText(nodes: seq<Node>, p: Pos)
    requires ValidPos(nodes, p)
    ensures var t := TextContent(nodes);
            var at := CaretOffset(nodes, p);
            at <= |t| && TextContent(InsertAt(nodes, p)) == t[..at] + [MARK] + t[at..]
  {
    match p
    case InText(k, off) => InTextText(nodes, k, off);
    case InContainer(i) => InContainerText(nodes, i);
  }

  lemma {:induction false} InTextText(nodes: seq<Node>, k: nat, off: nat)
    requires ValidPos(nodes, InText(k, off))
    ensures var t := TextContent(nodes);
            var at := |TextContent(nodes[..k])| + off;
            at <= |t| && TextContent(InsertAt(nodes, InText(k, off))) == t[..at] + [MARK] + t[at..]
  {
    var t := TextContent(nodes);
    var s := nodes[k].text;
    var mid := [Text(s[..off]), Text([MARK]), Text(s[off..])];
    var a := TextContent(nodes[..k]);
    var b := TextContent(nodes[k + 1..]);
    assert TextContent(InsertAt(nodes, InText(k, off))) == a + (s[..off] + [MARK] + s[off..]) + b by {
      TextContentThree(s[..off], [MARK], s[off..]);
      TextContentAppend(nodes[..k] + mid, nodes[k + 1..]);
      TextContentAppend(nodes[..k], mid);
    }
    assert t == a + s + b by {
      TextContentSplit(nodes, k);
    }
    PrefixInMiddle(a, s, b, off);
    SuffixInMiddle(a, s, b, off);
    Regroup(a, s[..off], [MARK], s[off..], b);
  }

  lemma {:induction false} InContainerText(nodes: seq<Node>, i: nat)
    requires i <= |nodes|
    ensures var t := TextContent(nodes);
            var at := |TextContent(nodes[..i])|;
            at <= |t| && TextContent(InsertAt(nodes, InContainer(i))) == t[..at] + [MARK] + t[at..]
  {
    var a := TextContent(nodes[..i]);
    var b := TextContent(nodes[i..]);
    assert TextContent(nodes) == a + b by {
      assert nodes == nodes[..i] + nodes[i..];
      TextContentAppend(nodes[..i], nodes[i..]);
    }
    assert TextContent(InsertAt(nodes, InContainer(i))) == a + [MARK] + b by {
      TextContentAppend(nodes[..i] + [Text([MARK])], nodes[i..]);
      TextContentAppend(nodes[..i], [Text([MARK])]);
      TextContentOne([MARK]);
    }
    assert (a + b)[..|a|] == a && (a + b)[|a|..] == b;
  }

  lemma {:induction false} TextContentOne(x: string)
    ensures TextContent([Text(x)]) == x
  {
    assert [Text(x)][1..] == [];
    assert TextContent([Text(x)]) == NodeText(Text(x)) + TextContent([]);
    assert x + [] == x;
  }

  lemma {:induction false} TextContentThree(x: string, y: string, z: string)
    ensures TextContent([Text(x), Text(y), Text(z)]) == x + y + z
  {
    var ns := [Text(x), Text(y), Text(z)];
    TextContentOne(z);
    assert [Text(y), Text(z)][1..] == [Text(z)];
    assert TextContent([Text(y), Text(z)]) == y + z;
    assert ns[1..] == [Text(y), Text(z)];
    assert TextContent(ns) == x + (y + z);
  }

  lemma {:induction false} InsertAtWellFormed(nodes: seq<Node>, p: Pos)
    requires ValidPos(nodes, p) && WellFormed(nodes)
    ensures WellFormed(InsertAt(nodes, p))
  {
    match p
    case InText(k, off) =>
      var s := nodes[k].text;
      assert WellFormedNode(nodes[k]);
      assert s == s[..off] + s[off..];
    case InContainer(i) =>
  }

  /**
   * dist/retype.js: whatever the callback writes, if the text it leaves
   * begins with the text that preceded the caret followed by the marker, the
   * caret comes back at the same text offset, after that same text.
   */
  lemma {:induction false} RetypeKeepsCaret(r: Region, callback: string -> string)
    requires ValidRegion(r) && Ready(r) && MARK !in TextContent(r.nodes)
    requires var t := TextContent(r.nodes);
             var at := CaretOffset(r.nodes, r.selection.pos);
             at <= |t| && t[..at] + [MARK] <= Visible(callback(Serialize(InsertAt(r.nodes, r.selection.pos))))
    ensures var m := RetypeResult(r, callback);
            var at := CaretOffset(r.nodes, r.selection.pos);
            && m.selection.Collapsed? && ValidPos(m.nodes, m.selection.pos)
            && CaretOffset(m.nodes, m.selection.pos) == at
            && at <= |TextContent(m.nodes)|
            && TextContent(m.nodes)[..at] == TextContent(r.nodes)[..at]
  {
    var t := TextContent(r.nodes);
    var at := CaretOffset(r.nodes, r.selection.pos);
    var h := callback(Serialize(InsertAt(r.nodes, r.selection.pos)));
    ReadyResult(r, callback);
    var after := WithHtml(Marked(r), h);
    MarkAfterPrefix(Visible(h), t, at);
    RelocateCaret(after);
  }

  /** On a ready region, `retype` relocates the caret in the parsed callback output. */
  lemma {:induction false} ReadyResult(r: Region, callback: string -> string)
    requires ValidRegion(r) && Ready(r)
    ensures var h := callback(Serialize(InsertAt(r.nodes, r.selection.pos)));
            && RetypeResult(r, callback) == Relocate(WithHtml(Marked(r), h))
            && TextContent(WithHtml(Marked(r), h).nodes) == Visible(h)
  {
    var h := callback(Serialize(InsertAt(r.nodes, r.selection.pos)));
    SerializeParse(h);
    ParseTextContent(h);
  }

  /** A marker right after a marker-free prefix is the first marker. */
  lemma {:induction false} MarkAfterPrefix(v: string, t: string, at: nat)
    requires at <= |t| && MARK !in t && t[..at] + [MARK] <= v
    ensures IndexOf(v, MARK) == at && v[..at] == t[..at]
  {
    assert v[..at + 1] == t[..at] + [MARK];
    assert v[at] == MARK && v[..at] == t[..at];
    IndexOfUnique(v, MARK, at);
  }

  /** With exactly one marker in the text, relocation gives back the text without it. */
  lemma {:induction false} RelocateSingleMarker(r: Region, p: string, q: string)
    requires TextContent(r.nodes) == p + [MARK] + q && MARK !in p && MARK !in q
    ensures TextContent(Relocate(r).nodes) == p + q
  {
    var nodes := r.nodes;
    var t := TextContent(nodes);
    assert t[|p|] == MARK && t[..|p|] == p;
    MarkInText(nodes);
    var k := FirstMarked(nodes).value;
    if LoneMarker(nodes, k) {
      assert |p| + |q| == 0;
      assert p + q == [];
      assert Relocate(r).nodes == [];
    } else {
      var s := nodes[k].text;
      var i := IndexOf(s, MARK);
      var a := TextContent(nodes[..k]);
      var b := TextContent(nodes[k + 1..]);
      TextContentSplit(nodes, k);
      assert t == a + s + b;
      FirstMarkedIndex(nodes, k);
      IndexOfUnique(t, MARK, |p|);
      assert |p| == |a| + i;
      SplitAtMark(s);
      Regroup(a, s[..i], [MARK], s[i + 1..], b);
      assert t == (a + s[..i]) + [MARK] + (s[i + 1..] + b);
      SplitUnique(p, [MARK], q, a + s[..i], s[i + 1..] + b);
      assert MARK !in s[i + 1..] by {
        assert forall c :: c in s[i + 1..] ==> c in q;
      }
      StripAllOneMark(s[..i], s[i + 1..]);
      var s2 := StripAll(s);
      assert s2 == s[..i] + s[i + 1..];
      ReplaceText(nodes, k, s2);
      assert Relocate(r).nodes == nodes[k := Text(s2)];
      assert TextContent(Relocate(r).nodes) == a + s2 + b;
      assert a + s2 + b == a + (s[..i] + s[i + 1..]) + b;
      Regroup4(a, s[..i], s[i + 1..], b);
      assert (a + s[..i]) + (s[i + 1..] + b) == p + q;
    }
  }

  /** A callback that writes the markup back as it found it. */
  function Unchanged(h: string): string
  {
    h
  }

  /** The markup after the marker insertion shows the old text with the marker at the caret. */
  lemma {:induction false} MarkedVisible(r: Region)
    requires ValidRegion(r) && r.selection.Collapsed? && WellFormed(r.nodes)
    ensures var t := TextContent(r.nodes);
            var at := CaretOffset(r.nodes, r.selection.pos);
            at <= |t| && Visible(Serialize(Marked(r).nodes)) == t[..at] + [MARK] + t[at..]
  {
    InsertAtText(r.nodes, r.selection.pos);
    InsertAtWellFormed(r.nodes, r.selection.pos);
    VisibleSerialize(InsertAt(r.nodes, r.selection.pos));
  }

  /** dist/retype.js: text written by the callback with one marker comes back without it. */
  lemma {:induction false} RetypeText(r: Region, callback: string -> string, p: string, q: string)
    requires ValidRegion(r) && Ready(r) && MARK !in p && MARK !in q
    requires Visible(callback(Serialize(Marked(r).nodes))) == p + [MARK] + q
    ensures TextContent(RetypeResult(r, callback).nodes) == p + q
  {
    var h := callback(Serialize(Marked(r).nodes));
    SerializeParse(h);
    ParseTextContent(h);
    var after := WithHtml(WithHtml(Marked(r), h), h);
    assert RetypeResult(r, callback) == Relocate(after);
    RelocateSingleMarker(after, p, q);
  }

  /** retype.js: the same, without the reflow. */
  lemma {:induction false} LegacyRetypeText(r: Region, callback: string -> string, p: string, q: string)
    requires ValidRegion(r) && r.selection.Collapsed? && MARK !in p && MARK !in q
    requires Visible(callback(Serialize(Marked(r).nodes))) == p + [MARK] + q
    ensures TextContent(LegacyRetypeResult(r, callback).nodes) == p + q
    ensures var m := LegacyRetypeResult(r, callback);
            && m.selection.Collapsed? && ValidPos(m.nodes, m.selection.pos)
            && CaretOffset(m.nodes, m.selection.pos) == |p|
  {
    var h := callback(Serialize(Marked(r).nodes));
    ParseTextContent(h);
    var after := WithHtml(Marked(r), h);
    assert LegacyRetypeResult(r, callback) == Relocate(after);
    var v := TextContent(after.nodes);
    assert v[|p|] == MARK && v[..|p|] == p;
    IndexOfUnique(v, MARK, |p|);
    RelocateCaret(after);
    RelocateSingleMarker(after, p, q);
  }

  /**
   * dist/retype.js with a callback that writes the markup back unchanged:
   * the text content survives, the marker is gone and the caret is at the
   * same text offset as before.
   */
  lemma {:induction false} RetypeRoundTrip(r: Region)
    requires ValidRegion(r) && Ready(r) && WellFormed(r.nodes) && MARK !in TextContent(r.nodes)
    ensures var m := RetypeResult(r, Unchanged);
            && m.selection.Collapsed? && ValidPos(m.nodes, m.selection.pos)
            && TextContent(m.nodes) == TextContent(r.nodes)
            && CaretOffset(m.nodes, m.selection.pos) == CaretOffset(r.nodes, r.selection.pos)
  {
    var t := TextContent(r.nodes);
    var at := CaretOffset(r.nodes, r.selection.pos);
    MarkedVisible(r);
    var v := Visible(Unchanged(Serialize(Marked(r).nodes)));
    assert v == t[..at] + [MARK] + t[at..];
    assert v[..at + 1] == t[..at] + [MARK];
    RetypeKeepsCaret(r, Unchanged);
    assert MARK !in t[..at] && MARK !in t[at..];
    RetypeText(r, Unchanged, t[..at], t[at..]);
    SplitJoin(t, at);
  }

  /** retype.js with a callback that writes the markup back unchanged: the same round trip. */
  lemma {:induction false} LegacyRetypeRoundTrip(r: Region)
    requires ValidRegion(r) && r.selection.Collapsed? && WellFormed(r.nodes) && MARK !in TextContent(r.nodes)
    ensures var m := LegacyRetypeResult(r, Unchanged);
            && m.selection.Collapsed? && ValidPos(m.nodes, m.selection.pos)
            && TextContent(m.nodes) == TextContent(r.nodes)
            && CaretOffset(m.nodes, m.selection.pos) == CaretOffset(r.nodes, r.selection.pos)
  {
    var t := TextContent(r.nodes);
    var at := CaretOffset(r.nodes, r.selection.pos);
    MarkedVisible(r);
    assert MARK !in t[..at] && MARK !in t[at..];
    var v := Visible(Unchanged(Serialize(Marked(r).nodes)));
    assert v == t[..at] + [MARK] + t[at..];
    LegacyRetypeText(r, Unchanged, t[..at], t[at..]);
    SplitJoin(t, at);
  }

  /** Without a marker anywhere in the text, relocation changes neither nodes nor selection. */
  lemma {:induction false} RelocateWithoutMarker(r: Region)
    requires MARK !in TextContent(r.nodes)
    ensures Relocate(r) == r
  {
    MarkInText(r.nodes);
  }

  /** How many characters of markup lie before the position. */
  function MarkupOffset(nodes: seq<Node>, p: Pos): nat
    requires ValidPos(nodes, p)
  {
    match p
    case InText(k, off) => |Serialize(nodes[..k])| + off
    case InContainer(i) => |Serialize(nodes[..i])|
  }

  /** Inserting the marker puts it into the markup at the position's markup offset. */
  lemma {:induction false} InsertAtMarkup(nodes: seq<Node>, p: Pos)
    requires ValidPos(nodes, p)
    ensures var h := Serialize(nodes);
            var i := MarkupOffset(nodes, p);
            i <= |h| && Serialize(InsertAt(nodes, p)) == h[..i] + [MARK] + h[i..]
  {
    match p
    case InText(k, off) => InTextMarkup(nodes, k, off);
    case InContainer(i) => InContainerMarkup(nodes, i);
  }

  lemma {:induction false} InTextMarkup(nodes: seq<Node>, k: nat, off: nat)
    requires ValidPos(nodes, InText(k, off))
    ensures var h := Serialize(nodes);
            var i := |Serialize(nodes[..k])| + off;
            i <= |h| && Serialize(InsertAt(nodes, InText(k, off))) == h[..i] + [MARK] + h[i..]
  {
    var s := nodes[k].text;
    var a := Serialize(nodes[..k]);
    var b := Serialize(nodes[k + 1..]);
    var mid := [Text(s[..off]), Text([MARK]), Text(s[off..])];
    MidMarkup(s[..off], s[off..]);
    SerializeAppend(nodes[..k] + mid, nodes[k + 1..]);
    SerializeAppend(nodes[..k], mid);
    SerializeSplit(nodes, k);
    var h := Serialize(nodes);
    PrefixInMiddle(a, s, b, off);
    SuffixInMiddle(a, s, b, off);
    Regroup(a, s[..off], [MARK], s[off..], b);
  }

  lemma {:induction false} MidMarkup(x: string, y: string)
    ensures Serialize([Text(x), Text([MARK]), Text(y)]) == x + [MARK] + y
  {
    SerializeText(y, []);
    SerializeText([MARK], [Text(y)]);
    SerializeText(x, [Text([MARK]), Text(y)]);
    assert [Text(x), Text([MARK]), Text(y)] == [Text(x)] + ([Text([MARK])] + [Text(y)]);
  }

  lemma {:induction false} InContainerMarkup(nodes: seq<Node>, i: nat)
    requires i <= |nodes|
    ensures var h := Serialize(nodes);
            var j := |Serialize(nodes[..i])|;
            j <= |h| && Serialize(nodes[..i] + [Text([MARK])] + nodes[i..]) == h[..j] + [MARK] + h[j..]
  {
    var a := Serialize(nodes[..i]);
    var b := Serialize(nodes[i..]);
    assert Serialize(nodes) == a + b by {
      assert nodes == nodes[..i] + nodes[i..];
      SerializeAppend(nodes[..i], nodes[i..]);
    }
    assert Serialize(nodes[..i] + [Text([MARK])] + nodes[i..]) == a + [MARK] + b by {
      SerializeThree(nodes[..i], [Text([MARK])], nodes[i..]);
      SerializeText([MARK], []);
    }
    assert (a + b)[..|a|] == a && (a + b)[|a|..] == b;
  }

  lemma {:induction false} SerializeThree(u: seq<Node>, m: seq<Node>, v: seq<Node>)
    ensures Serialize(u + m + v) == Serialize(u) + Serialize(m) + Serialize(v)
  {
    SerializeAppend(u + m, v);
    SerializeAppend(u, m);
  }

  /** The marked markup differs from the markup by its one marker. */
  lemma {:induction false} MarkedMarkup(r: Region)
    requires ValidRegion(r) && r.selection.Collapsed? && MARK !in Serialize(r.nodes)
    ensures Sanitize(Serialize(Marked(r).nodes)) == Serialize(r.nodes)
  {
    InsertAtMarkup(r.nodes, r.selection.pos);
    SanitizeUndoesInsert(Serialize(r.nodes), MarkupOffset(r.nodes, r.selection.pos));
  }

  /** Only text nodes: the content the user typed, before any highlighting. */
  predicate AllText(nodes: seq<Node>)
  {
    forall i :: 0 <= i < |nodes| ==> nodes[i].Text?
  }

  /** Well-formed text nodes serialize to markup without a `<`. */
  lemma {:induction false} PlainMarkup(nodes: seq<Node>)
    requires WellFormed(nodes) && AllText(nodes)
    ensures '<' !in Serialize(nodes)
  {
    if nodes != [] {
      assert WellFormedNode(nodes[0]) && nodes[0].Text?;
      forall i | 0 <= i < |nodes[1..]| ensures WellFormedNode(nodes[1..][i]) && nodes[1..][i].Text? {
        assert nodes[1..][i] == nodes[i + 1];
      }
      PlainMarkup(nodes[1..]);
    }
  }

  /** Inserting the marker adds text nodes only. */
  lemma {:induction false} InsertAtAllText(nodes: seq<Node>, p: Pos)
    requires ValidPos(nodes, p) && AllText(nodes)
    ensures AllText(InsertAt(nodes, p))
  {
  }
}
