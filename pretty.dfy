/** The `Pretty` renderer: the tree walk and the two line-per-node forms,
    plain text and HTML with the selection range overlaid. */
module Pretty {
  import opened Wrappers
  import opened Strings
  import opened Attributes
  import opened Dom
  import opened Whitespace
  import opened Boundary

  /** The plain-text line for one visit. */
  function TextLine(v: Visit): string
  {
    Repeat("  ", v.depth) +
    match v.node
    case Text(_, value) => "'" + Spaces(value) + "'"
    case Element(_, name, attrs, _) => "[ " + Lower(name) + Segment(Extracted(attrs)) + " ]"
    case Other(_, _) => ""
  }

  function TextLines(vs: seq<Visit>): seq<string>
  {
    seq(|vs|, k requires 0 <= k < |vs| => TextLine(vs[k]))
  }

  /** What `text()` returns for the tree `dom`. */
  function TextOutput(dom: Node): string
  {
    Join(TextLines(Preorder(dom, 0, Root)), "\n")
  }

  const HtmlPrefix: string := "<div class=\"pretty-html\"><div class=\"line\">"
  const HtmlSeparator: string := "</div><div class=\"line\">"
  const HtmlSuffix: string := "</div></div>"

  /** The depth span that starts every HTML line. */
  function DepthSpan(depth: nat): string
  {
    "<span class=\"depth depth-" + NatToString(depth) + "\">" + Repeat("&nbsp;&nbsp;", depth) + "</span>"
  }

  /** The HTML line for one visit: the depth span, the before-marker (on
      every node), the node's own span, and the after-marker. */
  function HtmlLine(v: Visit, range: Option<Range>): string
  {
    DepthSpan(v.depth) + MarkerHtml(BeforeMarker(v.place, range)) + HtmlBody(v, range) + MarkerHtml(ShownAfter(v, range))
  }

  /** The node's own span: its text, or its name and attribute segment. */
  function HtmlBody(v: Visit, range: Option<Range>): string
  {
    match v.node
    case Text(_, _) => "<span class=\"text\">" + HtmlText(v.node, range) + "</span class=\"text\">"
    case Element(_, name, attrs, _) => "<span class=\"element\">" + Lower(name) + Segment(Extracted(attrs)) + "</span>"
    case Other(_, _) => ""
  }

  /** `htmlafternode` is called for elements only. */
  function ShownAfter(v: Visit, range: Option<Range>): Marker
  {
    if v.node.Element? then AfterMarker(v.place, range) else NoMarker
  }

  function HtmlLines(vs: seq<Visit>, range: Option<Range>): seq<string>
  {
    seq(|vs|, k requires 0 <= k < |vs| => HtmlLine(vs[k], range))
  }

  /** What `html()` returns for the tree `dom` and the range. */
  function HtmlOutput(dom: Node, range: Option<Range>): string
  {
    HtmlPrefix + Join(HtmlLines(Preorder(dom, 0, Root), range), HtmlSeparator) + HtmlSuffix
  }

  class Pretty {
    const dom: Node
    const range: Option<Range>

    constructor (dom: Node, range: Option<Range>)
      ensures this.dom == dom && this.range == range
    {
      this.dom := dom;
      this.range := range;
    }

    /** `walk(node, fn, depth)`: the result lists the calls `fn` receives, in order. */
    method Walk(node: Node, depth: nat, place: Place) returns (visits: seq<Visit>)
      ensures visits == Preorder(node, depth, place)
      decreases node
    {
      visits := [Visit(node, depth, place)];
      if node.Text? {
        return;
      }
      var children := node.children;
      for i := 0 to |children|
        invariant visits + ChildVisits(node, depth, i) == Preorder(node, depth, place)
      {
        var sub := Walk(children[i], depth + 1, Child(node, i));
        assert ChildVisits(node, depth, i) == sub + ChildVisits(node, depth, i + 1);
        visits := visits + sub;
      }
    }

    /** The visitor of `text()`: builds the line for one node. */
    method TextVisit(v: Visit) returns (line: string)
      ensures line == TextLine(v)
    {
      line := Repeat("  ", v.depth);
      match v.node {
        case Text(_, value) =>
          line := line + "'" + Spaces(value) + "'";
        case Element(_, name, attrs, _) =>
          line := line + "[ " + Lower(name);
          var seg := AttributeSegment(attrs);
          line := line + seg;
          line := line + " ]";
        case Other(_, _) =>
      }
    }

    /** `text()`: one line per visited node, joined by newlines; the range is
        never consulted. */
    method Text() returns (s: string)
      ensures s == TextOutput(dom)
    {
      var visits := Walk(dom, 0, Root);
      var lines: seq<string> := [];
      for k := 0 to |visits|
        invariant lines == TextLines(visits)[..k]
      {
        var line := TextVisit(visits[k]);
        PrefixStep(TextLines(visits), k);
        lines := lines + [line];
      }
      assert TextLines(visits)[..|visits|] == TextLines(visits);
      s := Join(lines, "\n");
    }

    /** The visitor of `html()`: builds the line for one node. */
    method HtmlVisit(v: Visit) returns (line: string)
      ensures line == HtmlLine(v, range)
    {
      line := "<span class=\"depth depth-" + NatToString(v.depth) + "\">";
      line := line + Repeat("&nbsp;&nbsp;", v.depth);
      line := line + "</span>";
      var before := HtmlBeforeNode(v.place, range);
      line := line + before;
      ghost var head := line;
      match v.node {
        case Text(_, _) =>
          var body := "<span class=\"text\">" + HtmlText(v.node, range) + "</span class=\"text\">";
          line := line + body;
          assert line == head + body + "";
        case Element(_, name, attrs, _) =>
          var body := "<span class=\"element\">";
          body := body + Lower(name);
          var seg := AttributeSegment(attrs);
          body := body + seg;
          body := body + "</span>";
          line := line + body;
          var after := HtmlAfterNode(v.place, range);
          line := line + after;
        case Other(_, _) =>
          assert line == head + "" + "";
      }
    }

    /** `html()`: one line per visited node inside the wrapper divisions. */
    method Html() returns (s: string)
      ensures s == HtmlOutput(dom, range)
    {
      var visits := Walk(dom, 0, Root);
      var lines: seq<string> := [];
      for k := 0 to |visits|
        invariant lines == HtmlLines(visits, range)[..k]
      {
        var line := HtmlVisit(visits[k]);
        HtmlLinesStep(visits, range, k, lines, line);
        lines := lines + [line];
      }
      assert HtmlLines(visits, range)[..|visits|] == HtmlLines(visits, range);
      s := HtmlPrefix + Join(lines, HtmlSeparator) + HtmlSuffix;
    }
  }

  /** One more line of the `html()` loop. */
  lemma HtmlLinesStep(vs: seq<Visit>, range: Option<Range>, k: nat, lines: seq<string>, line: string)
    requires k < |vs|
    requires lines == HtmlLines(vs, range)[..k]
    requires line == HtmlLine(vs[k], range)
    ensures lines + [line] == HtmlLines(vs, range)[..k + 1]
  {
    var want := HtmlLines(vs, range);
    assert want[k] == line;
    PrefixStep(want, k);
  }

  /** Indentation: a plain-text line starts with exactly two spaces per level
      of depth, and whatever follows the indentation is not a space. */
  lemma TextLineIndent(v: Visit)
    ensures |TextLine(v)| >= 2 * v.depth
    ensures forall i :: 0 <= i < 2 * v.depth ==> TextLine(v)[i] == ' '
    ensures 2 * v.depth < |TextLine(v)| ==> TextLine(v)[2 * v.depth] != ' '
    ensures v.node.Other? ==> |TextLine(v)| == 2 * v.depth
  {
    var indent := Repeat("  ", v.depth);
    assert TextLine(v)[..|indent|] == indent;
    forall i | 0 <= i < 2 * v.depth
      ensures TextLine(v)[i] == ' '
    {
      CopiesChars("  ", v.depth, i);
      assert TextLine(v)[i] == indent[i];
    }
  }

  /** No element name or attribute text holds a line feed. */
  predicate NoLineFeedIn(u: Node)
  {
    u.Element? ==>
      && '\n' !in u.name
      && match u.attrs
         case NamedNodeMap(items) => forall i :: 0 <= i < |items| ==> '\n' !in items[i].name && '\n' !in items[i].value
         case PlainObject(obj) => forall i :: 0 <= i < |obj.keys| ==> '\n' !in obj.keys[i] && '\n' !in obj.values[obj.keys[i]]
  }

  predicate NoLineFeeds(dom: Node)
  {
    forall u :: u in Subtrees(dom) ==> NoLineFeedIn(u)
  }

  lemma LowerKeepsLineFeedOut(s: string)
    requires '\n' !in s
    ensures '\n' !in Lower(s)
  {
    forall i | 0 <= i < |s| ensures Lower(s)[i] != '\n' {
      assert s[i] != '\n';
    }
  }

  lemma SegmentHasNoLineFeed(src: AttrSource)
    requires src.NamedNodeMap? ==>
      forall i :: 0 <= i < |src.items| ==> '\n' !in src.items[i].name && '\n' !in src.items[i].value
    requires src.PlainObject? ==>
      forall i :: 0 <= i < |src.obj.keys| ==> '\n' !in src.obj.keys[i] && '\n' !in src.obj.values[src.obj.keys[i]]
    ensures '\n' !in Segment(Extracted(src))
  {
    var m := Extracted(src);
    forall i | 0 <= i < |m.keys|
      ensures '\n' !in m.keys[i] && '\n' !in m.values[m.keys[i]]
    {
      if src.NamedNodeMap? {
        var k := m.keys[i];
        FromItemsKeyOrder(src.items);
        FromItemsValues(src.items, k);
        var j :| 0 <= j < |src.items| && src.items[j] == Attr(k, m.values[k]);
      }
    }
    forall i | 0 <= i < |PairTexts(m)| ensures '\n' !in PairTexts(m)[i] {
      assert PairTexts(m)[i] == m.keys[i] + " = '" + m.values[m.keys[i]] + "'";
    }
    JoinAvoids(PairTexts(m), ", ", '\n');
  }

  lemma TextLineHasNoLineFeed(v: Visit)
    requires NoLineFeedIn(v.node)
    ensures '\n' !in TextLine(v)
  {
    var indent := Repeat("  ", v.depth);
    forall i | 0 <= i < |indent| ensures indent[i] != '\n' {
      CopiesChars("  ", v.depth, i);
    }
    match v.node {
      case Text(_, value) =>
        assert forall i :: 0 <= i < |value| ==> !IsWhitespace(Spaces(value)[i]);
      case Element(_, name, attrs, _) =>
        LowerKeepsLineFeedOut(name);
        SegmentHasNoLineFeed(attrs);
      case Other(_, _) =>
    }
  }

  /** One line per node: when no element name or attribute text holds a line
      feed, splitting `text()` at line feeds gives back exactly the visit lines,
      one for each node of the tree. */
  lemma TextOutputLines(dom: Node)
    requires NoLineFeeds(dom)
    ensures Split(TextOutput(dom), '\n') == TextLines(Preorder(dom, 0, Root))
    ensures |Split(TextOutput(dom), '\n')| == |Subtrees(dom)|
  {
    var vs := Preorder(dom, 0, Root);
    var lines := TextLines(vs);
    forall k | 0 <= k < |lines| ensures '\n' !in lines[k] {
      VisitedNodesInTree(dom, k);
      TextLineHasNoLineFeed(vs[k]);
    }
    SplitJoin(lines, '\n');
    PreorderVisitsEachNodeOnce(dom, 0, Root);
  }

  /** The plain-text form of a text node: its value between quotes, with every
      whitespace character shown as a glyph, one glyph per character. */
  lemma TextLineOfText(v: Visit)
    requires v.node.Text?
    ensures var body := TextLine(v)[2 * v.depth..];
      && |body| == |v.node.value| + 2
      && body[0] == '\'' && body[|body| - 1] == '\''
      && forall i :: 0 <= i < |v.node.value| ==> body[i + 1] == Glyph(v.node.value[i])
  {
    var indent := Repeat("  ", v.depth);
    assert TextLine(v) == indent + ("'" + Spaces(v.node.value) + "'");
    assert TextLine(v)[|indent|..] == "'" + Spaces(v.node.value) + "'";
  }

  /** The start boundary is shown beside the node's line: before it, or after
      it when the node is an element. */
  predicate StartBeside(v: Visit, range: Option<Range>)
  {
    BeforeMarker(v.place, range).HasStart() || ShownAfter(v, range).HasStart()
  }

  /** The end boundary is shown beside the node's line. */
  predicate EndBeside(v: Visit, range: Option<Range>)
  {
    BeforeMarker(v.place, range).HasEnd() || ShownAfter(v, range).HasEnd()
  }

  /** When ids are unique, a visit whose parent has the id of the node of
      visit `m` is a child of that very node, visited after it. */
  lemma ContainerIsVisitedParent(dom: Node, m: nat, k: nat)
    requires UniqueIds(dom)
    requires m < |Preorder(dom, 0, Root)| && k < |Preorder(dom, 0, Root)|
    requires ParentIs(Preorder(dom, 0, Root)[k].place, Preorder(dom, 0, Root)[m].node.id)
    ensures var vs := Preorder(dom, 0, Root);
      && m < k
      && vs[k].place.parent == vs[m].node
      && vs[k].place.index < |vs[m].node.ChildNodes()|
      && vs[m].node.ChildNodes()[vs[k].place.index] == vs[k].node
  {
    var vs := Preorder(dom, 0, Root);
    PreorderShape(dom, 0, Root, 0);
    PreorderShape(dom, 0, Root, k);
    var j :| 0 <= j < k && vs[j].node == vs[k].place.parent && vs[j].depth + 1 == vs[k].depth;
    assert vs[j].node.id == vs[m].node.id;
    assert j == m;
  }

  /** Where `html()` shows the start of a range whose container is the node of
      visit `m`: before child number `startOffset` of that node, or after its
      last child when the offset is the child count and that child is an element. */
  lemma StartBesideWhere(dom: Node, r: Range, m: nat, k: nat)
    requires UniqueIds(dom)
    requires m < |Preorder(dom, 0, Root)| && k < |Preorder(dom, 0, Root)|
    requires Preorder(dom, 0, Root)[m].node.id == r.startContainer
    ensures var vs := Preorder(dom, 0, Root);
      StartBeside(vs[k], Some(r)) <==>
        && vs[k].place.Child? && vs[k].place.parent == vs[m].node
        && (|| vs[k].place.index == r.startOffset
            || (vs[k].node.Element? && vs[k].place.index + 1 == r.startOffset == |vs[m].node.ChildNodes()|))
  {
    var vs := Preorder(dom, 0, Root);
    if ParentIs(vs[k].place, r.startContainer) {
      ContainerIsVisitedParent(dom, m, k);
    }
  }

  /** Where `html()` shows the end of a range whose container is the node of
      visit `m`: before child number `endOffset` only if the range is
      collapsed; after child `endOffset - 1` if that child is an element and
      either it is the last child or the range is not collapsed. */
  lemma EndBesideWhere(dom: Node, r: Range, m: nat, k: nat)
    requires UniqueIds(dom)
    requires m < |Preorder(dom, 0, Root)| && k < |Preorder(dom, 0, Root)|
    requires Preorder(dom, 0, Root)[m].node.id == r.endContainer
    ensures var vs := Preorder(dom, 0, Root);
      EndBeside(vs[k], Some(r)) <==>
        && vs[k].place.Child? && vs[k].place.parent == vs[m].node
        && (|| (vs[k].place.index == r.endOffset && r.collapsed)
            || (&& vs[k].node.Element? && vs[k].place.index + 1 == r.endOffset
                && (r.endOffset == |vs[m].node.ChildNodes()| || !r.collapsed)))
  {
    var vs := Preorder(dom, 0, Root);
    if ParentIs(vs[k].place, r.endContainer) {
      ContainerIsVisitedParent(dom, m, k);
    }
  }

  /** A container without children shows neither boundary beside any line. */
  lemma ChildlessContainerShowsNoBoundary(dom: Node, r: Range, m: nat, k: nat)
    requires UniqueIds(dom)
    requires m < |Preorder(dom, 0, Root)| && k < |Preorder(dom, 0, Root)|
    requires Preorder(dom, 0, Root)[m].node.ChildNodes() == []
    ensures r.startContainer == Preorder(dom, 0, Root)[m].node.id ==> !StartBeside(Preorder(dom, 0, Root)[k], Some(r))
    ensures r.endContainer == Preorder(dom, 0, Root)[m].node.id ==> !EndBeside(Preorder(dom, 0, Root)[k], Some(r))
  {
    var vs := Preorder(dom, 0, Root);
    if ParentIs(vs[k].place, vs[m].node.id) {
      ContainerIsVisitedParent(dom, m, k);
    }
  }

  /** A range that is not collapsed and ends at offset `o` of a container whose
      child `o - 1` is not an element (or that has no such child): its end is
      shown beside no line, since only collapsed ends go before a node and
      only elements get an after-marker. */
  lemma OpenEndAfterNonElementHidden(dom: Node, r: Range, m: nat, k: nat)
    requires UniqueIds(dom)
    requires m < |Preorder(dom, 0, Root)| && k < |Preorder(dom, 0, Root)|
    requires Preorder(dom, 0, Root)[m].node.id == r.endContainer && !r.collapsed
    requires var cs := Preorder(dom, 0, Root)[m].node.ChildNodes();
      !(0 < r.endOffset <= |cs| && cs[r.endOffset - 1].Element?)
    ensures !EndBeside(Preorder(dom, 0, Root)[k], Some(r))
  {
    var vs := Preorder(dom, 0, Root);
    if ParentIs(vs[k].place, r.endContainer) {
      ContainerIsVisitedParent(dom, m, k);
    }
  }

  /** A boundary at the child count of a container whose last child is not an
      element (the start, or the end of a collapsed range) is shown beside no
      line. */
  lemma BoundaryAfterNonElementHidden(dom: Node, r: Range, m: nat, k: nat)
    requires UniqueIds(dom)
    requires m < |Preorder(dom, 0, Root)| && k < |Preorder(dom, 0, Root)|
    requires var cs := Preorder(dom, 0, Root)[m].node.ChildNodes();
      0 < |cs| && !cs[|cs| - 1].Element?
    ensures var vs := Preorder(dom, 0, Root);
      && ((r.startContainer == vs[m].node.id && r.startOffset == |vs[m].node.ChildNodes()|)
          ==> !StartBeside(vs[k], Some(r)))
      && ((r.endContainer == vs[m].node.id && r.endOffset == |vs[m].node.ChildNodes()| && r.collapsed)
          ==> !EndBeside(vs[k], Some(r)))
  {
    var vs := Preorder(dom, 0, Root);
    if ParentIs(vs[k].place, vs[m].node.id) {
      ContainerIsVisitedParent(dom, m, k);
    }
  }
}
