/** Where the selection range's boundary markers go: before a node, after an
    element (both as child offsets in the parent), or inside a text node (as
    character offsets). */
module Boundary {
  import opened Wrappers
  import opened Strings
  import opened Dom
  import opened Whitespace

  /** The marker emitted at one position, if any. */
  datatype Marker = NoMarker | StartMarker | EndMarker | PointMarker
  {
    predicate HasStart()
    {
      StartMarker? || PointMarker?
    }

    predicate HasEnd()
    {
      EndMarker? || PointMarker?
    }
  }

  /** The combination policy shared by both sides: start and end together give
      one point marker, one of them alone gives its own marker, none gives nothing. */
  function Combine(start: bool, end: bool): (m: Marker)
    ensures m.HasStart() == start && m.HasEnd() == end
  {
    if start then (if end then PointMarker else StartMarker)
    else if end then EndMarker
    else NoMarker
  }

  const PointTag: string := "<span class=\"range\"></span>"
  const StartTag: string := "<span class=\"range start\"></span>"
  const EndTag: string := "<span class=\"range end\"></span>"

  function MarkerHtml(m: Marker): string
  {
    match m
    case NoMarker => ""
    case StartMarker => StartTag
    case EndMarker => EndTag
    case PointMarker => PointTag
  }

  /** The marker `htmlbeforenode` emits: the start boundary sits before the node
      when the start container is its parent and the start offset is its index;
      the end boundary only when, in addition, the range is collapsed. */
  function BeforeMarker(place: Place, range: Option<Range>): (m: Marker)
    ensures range.None? ==> m == NoMarker
    ensures m.HasStart() <==>
      range.Some? && ParentIs(place, range.value.startContainer) && place.index == range.value.startOffset
    ensures m.HasEnd() <==>
      range.Some? && ParentIs(place, range.value.endContainer) && place.index == range.value.endOffset
      && range.value.collapsed
  {
    match range
    case None => NoMarker
    case Some(r) =>
      Combine(ParentIs(place, r.startContainer) && place.index == r.startOffset,
              ParentIs(place, r.endContainer) && place.index == r.endOffset && r.collapsed)
  }

  /** The marker `htmlafternode` emits: the start boundary sits after the node
      when it is the last child and the start offset is one past its index; the
      end boundary at one past its index, unless the range is collapsed and a
      next sibling exists (that sibling's before-marker shows the point then). */
  function AfterMarker(place: Place, range: Option<Range>): (m: Marker)
    ensures range.None? ==> m == NoMarker
    ensures m.HasStart() <==>
      range.Some? && ParentIs(place, range.value.startContainer) && place.index + 1 == range.value.startOffset
      && !HasNextSibling(place)
    ensures m.HasEnd() <==>
      range.Some? && ParentIs(place, range.value.endContainer) && place.index + 1 == range.value.endOffset
      && (!HasNextSibling(place) || !range.value.collapsed)
  {
    match range
    case None => NoMarker
    case Some(r) =>
      Combine(ParentIs(place, r.startContainer) && place.index + 1 == r.startOffset && !HasNextSibling(place),
              ParentIs(place, r.endContainer) && place.index + 1 == r.endOffset
              && (!HasNextSibling(place) || !r.collapsed))
  }

  /** `calculateOffset`: the first call walks `previousSibling` back to the
      first child, counting the steps; a later call returns the cached count. */
  method CalculateOffset(place: Place, cached: Option<nat>) returns (offset: nat)
    requires place.Child?
    requires cached.Some? ==> cached.value == place.index
    ensures offset == place.index
  {
    if cached.Some? {
      return cached.value;
    }
    offset := 0;
    var tmp := place;
    while HasPreviousSibling(tmp)
      invariant tmp.Child? && tmp.parent == place.parent
      invariant offset + tmp.index == place.index
      decreases tmp.index
    {
      tmp := PreviousSibling(tmp);
      offset := offset + 1;
    }
  }

  /** `htmlbeforenode(node, range)`. */
  method HtmlBeforeNode(place: Place, range: Option<Range>) returns (str: string)
    ensures str == MarkerHtml(BeforeMarker(place, range))
  {
    var offset: Option<nat> := None;
    str := "";
    if range.Some? {
      var r := range.value;
      var start, end := false, false;
      if ParentIs(place, r.startContainer) {
        var o := CalculateOffset(place, offset);
        offset := Some(o);
        if o == r.startOffset {
          start := true;
        }
      }
      if ParentIs(place, r.endContainer) {
        var o := CalculateOffset(place, offset);
        offset := Some(o);
        if o == r.endOffset && r.collapsed {
          end := true;
        }
      }
      if start {
        if end {
          str := str + PointTag;
        } else {
          str := str + StartTag;
        }
      } else if end {
        str := str + EndTag;
      }
    }
  }

  /** `htmlafternode(node, range)`. */
  method HtmlAfterNode(place: Place, range: Option<Range>) returns (str: string)
    ensures str == MarkerHtml(AfterMarker(place, range))
  {
    var offset: Option<nat> := None;
    str := "";
    if range.Some? {
      var r := range.value;
      var start, end := false, false;
      if ParentIs(place, r.startContainer) {
        var o := CalculateOffset(place, offset);
        offset := Some(o);
        if o + 1 == r.startOffset && !HasNextSibling(place) {
          start := true;
        }
      }
      if ParentIs(place, r.endContainer) {
        var o := CalculateOffset(place, offset);
        offset := Some(o);
        if o + 1 == r.endOffset && (!HasNextSibling(place) || !r.collapsed) {
          end := true;
        }
      }
      if start {
        if end {
          str := str + PointTag;
        } else {
          str := str + StartTag;
        }
      } else if end {
        str := str + EndTag;
      }
    }
  }

  /** A collapsed range whose container is `p`, at child offset `k`: the point
      marker goes before child `k`, or after the last child when `k` is the
      child count; no other child gets a marker on either side. */
  lemma CollapsedRangeAmongChildren(p: Node, k: nat, j: nat)
    requires j < |p.ChildNodes()|
    ensures var range := Some(Range(p.id, k, p.id, k, true));
      && BeforeMarker(Child(p, j), range) == (if j == k then PointMarker else NoMarker)
      && AfterMarker(Child(p, j), range) == (if j + 1 == k && k == |p.ChildNodes()| then PointMarker else NoMarker)
  {
  }

  /** A range that is not collapsed, with both boundaries in `p`: the start
      marker goes before child `ks` (or after the last child when `ks` is the
      child count), and the end marker after child `ke - 1`. */
  lemma SpanningRangeAmongChildren(p: Node, ks: nat, ke: nat, j: nat)
    requires j < |p.ChildNodes()|
    ensures var range := Some(Range(p.id, ks, p.id, ke, false));
      && BeforeMarker(Child(p, j), range) == (if j == ks then StartMarker else NoMarker)
      && AfterMarker(Child(p, j), range) == Combine(j + 1 == ks && ks == |p.ChildNodes()|, j + 1 == ke)
  {
  }

  /** `str.replace(/ /g, '·')`, the first step of `htmltext`: every space
      becomes a middle dot and nothing else changes, so text offsets still
      count the characters of the node's own value. */
  function Dots(s: string): (r: string)
    ensures |r| == |s|
    ensures forall i :: 0 <= i < |s| ==> r[i] == (if s[i] == ' ' then MiddleDot else s[i])
  {
    ReplaceAllByChar(s, ' ', MiddleDot);
    ReplaceAll(s, ' ', [MiddleDot])
  }

  /** The marker splice of `htmltext`, applied to the text after `Dots`: a
      node that is no container of the range keeps its text; otherwise a
      marker is inserted and no character is lost. */
  function Marked(id: NodeId, s: string, range: Option<Range>): (r: string)
    ensures range.None? || (range.value.startContainer != id && range.value.endContainer != id) ==> r == s
    ensures range.Some? && (range.value.startContainer == id || range.value.endContainer == id) ==> |r| > |s|
  {
    match range
    case None => s
    case Some(r) =>
      if r.startContainer == id then
        if r.endContainer == id then
          if r.endOffset > r.startOffset then
            Slice(s, 0, r.startOffset) + StartTag + Slice(s, r.startOffset, r.endOffset) + EndTag + SliceFrom(s, r.endOffset)
          else
            Slice(s, 0, r.startOffset) + PointTag + SliceFrom(s, r.endOffset)
        else
          Slice(s, 0, r.startOffset) + StartTag + SliceFrom(s, r.startOffset)
      else if r.endContainer == id then
        Slice(s, 0, r.endOffset) + EndTag + SliceFrom(s, r.endOffset)
      else
        s
  }

  /** `htmltext(textNode, range)`. In a text node that holds no boundary,
      every space, tab, CR and LF (and every literal middle dot) is wrapped in
      its own whitespace span, and every other character passes through. */
  function HtmlText(textNode: Node, range: Option<Range>): (r: string)
    requires textNode.Text?
    ensures range.None? || (range.value.startContainer != textNode.id && range.value.endContainer != textNode.id)
      ==> r == HtmlChars(textNode.value)
  {
    WrapWhitespaceIsPerChar(Dots(textNode.value));
    WrapDots(textNode.value);
    WrapWhitespace(Marked(textNode.id, Dots(textNode.value), range))
  }

  /** Only the start container: a start marker is inserted after the first
      `startOffset` characters (all of them when the offset is beyond the end). */
  lemma MarkedStartOnly(id: NodeId, s: string, r: Range)
    requires r.startContainer == id && r.endContainer != id
    ensures var k := Min(r.startOffset, |s|);
      Marked(id, s, Some(r)) == s[..k] + StartTag + s[k..]
  {
  }

  /** Only the end container: an end marker is inserted at the end offset. */
  lemma MarkedEndOnly(id: NodeId, s: string, r: Range)
    requires r.startContainer != id && r.endContainer == id
    ensures var k := Min(r.endOffset, |s|);
      Marked(id, s, Some(r)) == s[..k] + EndTag + s[k..]
  {
  }

  /** Both containers, end after start: a start marker at the start offset and
      an end marker at the end offset; the text between them is kept whole. */
  lemma MarkedSpan(id: NodeId, s: string, r: Range)
    requires r.startContainer == id && r.endContainer == id && r.endOffset > r.startOffset
    ensures var a, b := Min(r.startOffset, |s|), Min(r.endOffset, |s|);
      a <= b && Marked(id, s, Some(r)) == s[..a] + StartTag + s[a..b] + EndTag + s[b..]
  {
  }

  /** Both containers, end not after start: one point marker, with the text up
      to the start offset before it and the text from the end offset after it.
      So the characters between the two offsets appear twice (none are dropped),
      and for equal offsets it is a plain insertion. */
  lemma MarkedDegenerate(id: NodeId, s: string, r: Range)
    requires r.startContainer == id && r.endContainer == id && r.endOffset <= r.startOffset
    ensures var a, b := Min(r.startOffset, |s|), Min(r.endOffset, |s|);
      && b <= a
      && Marked(id, s, Some(r)) == s[..a] + PointTag + s[b..]
      && |Marked(id, s, Some(r))| == |s| + |PointTag| + (a - b)
      && Marked(id, s, Some(r))[a + |PointTag|..2 * a + |PointTag| - b] == s[b..a]
      && (a == b ==> Marked(id, s, Some(r)) == s[..a] + PointTag + s[a..])
  {
    var a, b := Min(r.startOffset, |s|), Min(r.endOffset, |s|);
    var m := Marked(id, s, Some(r));
    assert m == s[..a] + PointTag + s[b..];
    assert m[a + |PointTag|..] == s[b..];
    assert s[b..][..a - b] == s[b..a];
  }

  /** Printable ASCII: no whitespace other than the plain space, no middle dot. */
  predicate PrintableAscii(s: string)
  {
    forall i | 0 <= i < |s| :: ' ' <= s[i] <= '~'
  }

  lemma MarkerIsPrintable(m: Marker)
    ensures PrintableAscii(MarkerHtml(m))
  {
  }

  /** Whitespace wrapping leaves an inserted marker whole and wraps the text on
      either side of it on its own. */
  lemma WrapAroundMarker(a: string, m: Marker, b: string)
    ensures WrapWhitespace(a + MarkerHtml(m) + b) == WrapChars(a) + MarkerHtml(m) + WrapChars(b)
  {
    MarkerIsPrintable(m);
    WrapWhitespaceConcat(a + MarkerHtml(m), b);
    WrapWhitespaceConcat(a, MarkerHtml(m));
    WrapWhitespaceIsPerChar(a);
    WrapWhitespaceIsPerChar(b);
  }

  /** What one character of a text node's value becomes in the HTML form:
      a space and a literal middle dot alike become the space span. */
  function HtmlChar(c: char): string
  {
    if c == ' ' || c == MiddleDot then SpaceSpan
    else if c == '\r' || c == '\n' then NewlineSpan
    else if c == '\t' then TabSpan
    else [c]
  }

  function HtmlChars(s: string): string
  {
    if |s| == 0 then "" else HtmlChar(s[0]) + HtmlChars(s[1..])
  }

  lemma {:induction false} WrapDots(s: string)
    ensures WrapChars(Dots(s)) == HtmlChars(s)
  {
    if |s| > 0 {
      WrapDots(s[1..]);
      ReplaceAllConcat([s[0]], s[1..], ' ', [MiddleDot]);
      assert [s[0]] + s[1..] == s;
      assert [s[0]][1..] == [];
      var d := if s[0] == ' ' then [MiddleDot] else [s[0]];
      assert Dots(s) == d + Dots(s[1..]);
      assert d[1..] == [];
      assert WrapChars(d + Dots(s[1..])) == WrapChar(d[0]) + WrapChars(Dots(s[1..])) by {
        assert (d + Dots(s[1..]))[1..] == Dots(s[1..]);
      }
    }
  }

  /** Only the start container: the wrapped text before the offset, the start
      marker, and the wrapped text after it. */
  lemma HtmlTextStartOnly(textNode: Node, r: Range)
    requires textNode.Text? && r.startContainer == textNode.id && r.endContainer != textNode.id
    ensures var d := Dots(textNode.value);
      var k := Min(r.startOffset, |d|);
      HtmlText(textNode, Some(r)) == WrapChars(d[..k]) + StartTag + WrapChars(d[k..])
  {
    var d := Dots(textNode.value);
    MarkedStartOnly(textNode.id, d, r);
    var k := Min(r.startOffset, |d|);
    WrapAroundMarker(d[..k], StartMarker, d[k..]);
  }

  /** Only the end container: the wrapped text before the offset, the end
      marker, and the wrapped text after it. */
  lemma HtmlTextEndOnly(textNode: Node, r: Range)
    requires textNode.Text? && r.startContainer != textNode.id && r.endContainer == textNode.id
    ensures var d := Dots(textNode.value);
      var k := Min(r.endOffset, |d|);
      HtmlText(textNode, Some(r)) == WrapChars(d[..k]) + EndTag + WrapChars(d[k..])
  {
    var d := Dots(textNode.value);
    MarkedEndOnly(textNode.id, d, r);
    var k := Min(r.endOffset, |d|);
    WrapAroundMarker(d[..k], EndMarker, d[k..]);
  }

  /** Both containers, end not after start: the wrapped text up to the start
      offset, one point marker, and the wrapped text from the end offset on. */
  lemma HtmlTextDegenerate(textNode: Node, r: Range)
    requires textNode.Text? && r.startContainer == textNode.id && r.endContainer == textNode.id
    requires r.endOffset <= r.startOffset
    ensures var d := Dots(textNode.value);
      var a, b := Min(r.startOffset, |d|), Min(r.endOffset, |d|);
      HtmlText(textNode, Some(r)) == WrapChars(d[..a]) + PointTag + WrapChars(d[b..])
  {
    var d := Dots(textNode.value);
    var a, b := Min(r.startOffset, |d|), Min(r.endOffset, |d|);
    MarkedDegenerate(textNode.id, d, r);
    WrapAroundMarker(d[..a], PointMarker, d[b..]);
  }

  lemma {:induction false} WrapCharsConcat(a: string, b: string)
    ensures WrapChars(a + b) == WrapChars(a) + WrapChars(b)
  {
    WrapWhitespaceIsPerChar(a + b);
    WrapWhitespaceIsPerChar(a);
    WrapWhitespaceIsPerChar(b);
    WrapWhitespaceConcat(a, b);
  }

  /** Both containers, end after start: each piece of text is wrapped on its
      own and both markers survive the wrapping whole. */
  lemma HtmlTextSpan(textNode: Node, r: Range)
    requires textNode.Text? && r.startContainer == textNode.id && r.endContainer == textNode.id
    requires r.endOffset > r.startOffset
    ensures var d := Dots(textNode.value);
      var a, b := Min(r.startOffset, |d|), Min(r.endOffset, |d|);
      HtmlText(textNode, Some(r))
        == WrapChars(d[..a]) + StartTag + WrapChars(d[a..b]) + EndTag + WrapChars(d[b..])
  {
    var d := Dots(textNode.value);
    var a, b := Min(r.startOffset, |d|), Min(r.endOffset, |d|);
    MarkedSpan(textNode.id, d, r);
    WrapAroundTwoMarkers(d[..a], StartMarker, d[a..b], EndMarker, d[b..]);
  }

  lemma WrapAroundTwoMarkers(a: string, m1: Marker, b: string, m2: Marker, c: string)
    ensures WrapWhitespace(a + MarkerHtml(m1) + b + MarkerHtml(m2) + c)
      == WrapChars(a) + MarkerHtml(m1) + WrapChars(b) + MarkerHtml(m2) + WrapChars(c)
  {
    var t1 := MarkerHtml(m1);
    WrapAroundMarker(a + t1 + b, m2, c);
    WrapCharsConcat(a + t1, b);
    WrapCharsConcat(a, t1);
    MarkerIsPrintable(m1);
    WrapWhitespaceIsPerChar(t1);
  }

  /** A literal middle dot in a text node renders exactly as a space does,
      wherever the range falls. */
  lemma HtmlTextDotLikeSpace(id: NodeId, u: string, w: string, range: Option<Range>)
    ensures HtmlText(Text(id, u + [MiddleDot] + w), range) == HtmlText(Text(id, u + " " + w), range)
  {
    ReplaceAllConcat(u + [MiddleDot], w, ' ', [MiddleDot]);
    ReplaceAllConcat(u, [MiddleDot], ' ', [MiddleDot]);
    ReplaceAllConcat(u + " ", w, ' ', [MiddleDot]);
    ReplaceAllConcat(u, " ", ' ', [MiddleDot]);
    assert [MiddleDot][1..] == [] && " "[1..] == [];
  }
}
