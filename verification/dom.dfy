/**
 * The editable container seen as a flat list of nodes in document order:
 * every text node is a `Text`, every element contributes its opening and
 * closing markup as `Tag` nodes.  `Serialize` is jQuery's `.html()` getter,
 * `Parse` is what the browser builds from an `innerHTML` assignment (the
 * `.html(x)` setter).  Character references are not modelled: text never
 * holds `<` or `>` in serialized form, which is what `WellFormed` states.
 */
module Dom {
  import opened Text

  datatype Node = Text(text: string) | Tag(markup: string)

  /** The markup a node contributes to `.html()`. */
  function NodeMarkup(n: Node): string
  {
    match n
    case Text(s) => s
    case Tag(m) => m
  }

  /** `.html()`: the markup of the children, concatenated in document order. */
  function Serialize(nodes: seq<Node>): (h: string)
    ensures nodes == [] ==> h == []
  {
    if nodes == [] then [] else NodeMarkup(nodes[0]) + Serialize(nodes[1..])
  }

  /** The text a node contributes to `textContent`. */
  function NodeText(n: Node): string
  {
    match n
    case Text(s) => s
    case Tag(_) => []
  }

  /** `textContent`: the text nodes, concatenated in document order. */
  function TextContent(nodes: seq<Node>): string
  {
    if nodes == [] then [] else NodeText(nodes[0]) + TextContent(nodes[1..])
  }

  /** A tag begins at `p` when a `<` there is closed by some later `>`. */
  predicate IsTagStart(h: string, p: nat)
    requires p < |h|
  {
    h[p] == '<' && '>' in h[p..]
  }

  /** Length of the tag at the head of `h`: up to and including the first `>`. */
  function TagEnd(h: string): (n: nat)
    requires h != [] && IsTagStart(h, 0)
    ensures 2 <= n <= |h| && h[n - 1] == '>' && '>' !in h[..n - 1]
  {
    assert h[0..] == h;
    var j := IndexOf(h, '>');
    assert h[..j + 1][..j] == h[..j];
    j + 1
  }

  /** End of the text run at the head of `h`: the next tag start, or the end. */
  function TextEnd(h: string, p: nat): (n: nat)
    requires 1 <= p <= |h|
    ensures p <= n <= |h|
    ensures n < |h| ==> IsTagStart(h, n)
    ensures forall q :: p <= q < n ==> !IsTagStart(h, q)
    decreases |h| - p
  {
    if p == |h| || IsTagStart(h, p) then p else TextEnd(h, p + 1)
  }

  /** Tokenizes markup into the node list the browser would build. */
  function Parse(h: string): seq<Node>
    decreases |h|
  {
    if h == [] then []
    else if IsTagStart(h, 0) then
      var n := TagEnd(h);
      [Tag(h[..n])] + Parse(h[n..])
    else
      var n := TextEnd(h, 1);
      [Text(h[..n])] + Parse(h[n..])
  }

  /** The characters of `h` outside complete tags, one by one. */
  function Visible(h: string): string
    decreases |h|
  {
    if h == [] then []
    else if IsTagStart(h, 0) then Visible(h[TagEnd(h)..])
    else [h[0]] + Visible(h[1..])
  }

  /** Parsing loses nothing: serializing the parsed nodes gives the markup back. */
  lemma {:induction false} SerializeParse(h: string)
    ensures Serialize(Parse(h)) == h
    decreases |h|
  {
    if h != [] {
      var n := if IsTagStart(h, 0) then TagEnd(h) else TextEnd(h, 1);
      SerializeParse(h[n..]);
      var ns := Parse(h);
      assert ns[1..] == Parse(h[n..]);
      assert h == h[..n] + h[n..];
    }
  }

  /** A stretch without tag starts is visible as it stands. */
  lemma {:induction false} VisiblePlain(h: string, n: nat)
    requires n <= |h|
    requires forall q :: 0 <= q < n ==> !IsTagStart(h, q)
    ensures Visible(h) == h[..n] + Visible(h[n..])
  {
    if n > 0 {
      var t := h[1..];
      VisibleStep(h);
      forall q | 0 <= q < n - 1 ensures !IsTagStart(t, q) {
        TagStartTail(h, q);
      }
      VisiblePlain(t, n - 1);
      TailSlices(h, n);
    }
  }

  /** Outside a tag, the first character is visible. */
  lemma {:induction false} VisibleStep(h: string)
    requires h != [] && !IsTagStart(h, 0)
    ensures Visible(h) == [h[0]] + Visible(h[1..])
  {
  }

  lemma {:induction false} TailSlices(h: string, n: nat)
    requires 0 < n <= |h|
    ensures h[1..][n - 1..] == h[n..] && h[..n] == [h[0]] + h[1..][..n - 1]
  {
  }

  /** A tag starts in the tail of `h` where one starts in `h` one place later. */
  lemma {:induction false} TagStartTail(h: string, q: nat)
    requires q + 1 < |h|
    ensures IsTagStart(h[1..], q) == IsTagStart(h, q + 1)
  {
    assert h[1..][q..] == h[q + 1..];
  }

  /** The text nodes of the parsed markup are exactly its visible characters. */
  lemma {:induction false} ParseTextContent(h: string)
    ensures TextContent(Parse(h)) == Visible(h)
    decreases |h|
  {
    if h != [] {
      if IsTagStart(h, 0) {
        ParseTextContent(h[TagEnd(h)..]);
        assert Parse(h)[1..] == Parse(h[TagEnd(h)..]);
      } else {
        var n := TextEnd(h, 1);
        ParseTextContent(h[n..]);
        assert Parse(h)[1..] == Parse(h[n..]);
        VisiblePlain(h, n);
      }
    }
  }

  /** The shape serialized markup has: no `<` or `>` in text, tags `<…>` without either inside. */
  predicate WellFormedNode(n: Node)
  {
    match n
    case Text(s) => '<' !in s && '>' !in s
    case Tag(m) =>
      2 <= |m| && m[0] == '<' && m[|m| - 1] == '>'
      && '<' !in m[1..|m| - 1] && '>' !in m[1..|m| - 1]
  }

  predicate WellFormed(nodes: seq<Node>)
  {
    forall i :: 0 <= i < |nodes| ==> WellFormedNode(nodes[i])
  }

  lemma {:induction false} VisibleOfText(s: string, rest: string)
    requires '<' !in s
    ensures Visible(s + rest) == s + Visible(rest)
  {
    forall q | 0 <= q < |s| ensures !IsTagStart(s + rest, q) {
      assert (s + rest)[q] == s[q];
    }
    VisiblePlain(s + rest, |s|);
    assert (s + rest)[..|s|] == s && (s + rest)[|s|..] == rest;
  }

  lemma {:induction false} VisibleOfTag(m: string, rest: string)
    requires WellFormedNode(Tag(m))
    ensures Visible(m + rest) == Visible(rest)
  {
    var h := m + rest;
    assert h[0] == '<';
    assert h[|m| - 1] == '>';
    assert h[0..][|m| - 1] == '>';
    assert IsTagStart(h, 0);
    var k := TagEnd(h);
    assert h[k..] == rest;
  }

  lemma {:induction false} VisibleOfNode(n: Node, rest: string)
    requires WellFormedNode(n)
    ensures Visible(NodeMarkup(n) + rest) == NodeText(n) + Visible(rest)
  {
    match n
    case Text(s) => VisibleOfText(s, rest);
    case Tag(m) => VisibleOfTag(m, rest);
  }

  /** For well-formed nodes the visible characters of the markup are the text content. */
  lemma {:induction false} VisibleSerialize(nodes: seq<Node>)
    requires WellFormed(nodes)
    ensures Visible(Serialize(nodes)) == TextContent(nodes)
  {
    if nodes != [] {
      var rest := Serialize(nodes[1..]);
      assert WellFormedNode(nodes[0]);
      assert WellFormed(nodes[1..]) by {
        forall i | 0 <= i < |nodes[1..]| ensures WellFormedNode(nodes[1..][i]) {
          assert nodes[1..][i] == nodes[i + 1];
        }
      }
      VisibleSerialize(nodes[1..]);
      VisibleOfNode(nodes[0], rest);
      assert Serialize(nodes) == NodeMarkup(nodes[0]) + rest;
      assert TextContent(nodes) == NodeText(nodes[0]) + TextContent(nodes[1..]);
    }
  }

  /**
   * Re-parsing the serialization of well-formed nodes (`innerHTML = innerHTML`)
   * may merge or drop text nodes but keeps the text content.
   */
  lemma {:induction false} ReflowKeepsText(nodes: seq<Node>)
    requires WellFormed(nodes)
    ensures TextContent(Parse(Serialize(nodes))) == TextContent(nodes)
  {
    ParseTextContent(Serialize(nodes));
    VisibleSerialize(nodes);
  }

  lemma {:induction false} TextContentAppend(a: seq<Node>, b: seq<Node>)
    ensures TextContent(a + b) == TextContent(a) + TextContent(b)
  {
    if a == [] {
      assert a + b == b;
    } else {
      assert (a + b)[0] == a[0] && (a + b)[1..] == a[1..] + b;
      TextContentAppend(a[1..], b);
    }
  }

  /** The text content around one node. */
  lemma {:induction false} TextContentSplit(nodes: seq<Node>, k: nat)
    requires k < |nodes|
    ensures TextContent(nodes)
         == TextContent(nodes[..k]) + NodeText(nodes[k]) + TextContent(nodes[k + 1..])
  {
    var rest := [nodes[k]] + nodes[k + 1..];
    assert nodes == nodes[..k] + rest;
    TextContentAppend(nodes[..k], rest);
    assert rest[0] == nodes[k] && rest[1..] == nodes[k + 1..];
    assert TextContent(rest) == NodeText(nodes[k]) + TextContent(nodes[k + 1..]);
  }

  lemma {:induction false} SerializeAppend(a: seq<Node>, b: seq<Node>)
    ensures Serialize(a + b) == Serialize(a) + Serialize(b)
  {
    if a == [] {
      assert a + b == b;
    } else {
      assert (a + b)[0] == a[0] && (a + b)[1..] == a[1..] + b;
      SerializeAppend(a[1..], b);
    }
  }

  /** The markup around one node. */
  lemma {:induction false} SerializeSplit(nodes: seq<Node>, k: nat)
    requires k < |nodes|
    ensures Serialize(nodes)
         == Serialize(nodes[..k]) + NodeMarkup(nodes[k]) + Serialize(nodes[k + 1..])
  {
    var rest := [nodes[k]] + nodes[k + 1..];
    assert nodes == nodes[..k] + rest;
    SerializeAppend(nodes[..k], rest);
    assert rest[0] == nodes[k] && rest[1..] == nodes[k + 1..];
    assert Serialize(rest) == NodeMarkup(nodes[k]) + Serialize(nodes[k + 1..]);
  }

  lemma {:induction false} SerializeText(x: string, rest: seq<Node>)
    ensures Serialize([Text(x)] + rest) == x + Serialize(rest)
  {
    assert ([Text(x)] + rest)[0] == Text(x) && ([Text(x)] + rest)[1..] == rest;
  }

  /** The visible characters are characters of the markup. */
  lemma {:induction false} VisibleOmits(h: string, c: char)
    requires c !in h
    ensures c !in Visible(h)
    decreases |h|
  {
    if h != [] {
      if IsTagStart(h, 0) {
        VisibleOmits(h[TagEnd(h)..], c);
      } else {
        VisibleOmits(h[1..], c);
      }
    }
  }
}
