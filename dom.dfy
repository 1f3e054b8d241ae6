/** The node tree the renderer walks, the selection range it overlays, and
    the pre-order visit sequence that `walk` produces. */
module Dom {
  import opened Attributes

  /** Node identity: the source compares nodes by reference, the model by id. */
  type NodeId = nat

  datatype Node =
    | Element(id: NodeId, name: string, attrs: AttrSource, children: seq<Node>)
    | Text(id: NodeId, value: string)
    | Other(id: NodeId, children: seq<Node>)
  {
    /** `childNodes`: a text node has none. */
    function ChildNodes(): seq<Node>
    {
      if Text? then [] else children
    }
  }

  /** Where a visited node sits: the root has no `parentNode`; any other node
      is child number `index` of `parent`, which fixes its siblings. */
  datatype Place = Root | Child(parent: Node, index: nat)

  /** `node.parentNode == c` for a range container `c`. */
  predicate ParentIs(place: Place, c: NodeId)
  {
    place.Child? && place.parent.id == c
  }

  /** `node.nextSibling` is not null. */
  predicate HasNextSibling(place: Place)
  {
    place.Child? && place.index + 1 < |place.parent.ChildNodes()|
  }

  /** `node.previousSibling` is not null. */
  predicate HasPreviousSibling(place: Place)
  {
    place.Child? && 0 < place.index
  }

  /** The place of `node.previousSibling`. */
  function PreviousSibling(place: Place): (p: Place)
    requires HasPreviousSibling(place)
    ensures p.Child? && p.parent == place.parent && p.index + 1 == place.index
  {
    Child(place.parent, place.index - 1)
  }

  /** A selection range: each boundary is a container and an offset (a child
      index in an element or other node, a character offset in a text node). */
  datatype Range = Range(startContainer: NodeId, startOffset: nat,
                         endContainer: NodeId, endOffset: nat, collapsed: bool)

  /** One call of the visitor passed to `walk`: the node, its depth, and its place. */
  datatype Visit = Visit(node: Node, depth: nat, place: Place)

  /** Pre-order: the node itself, then each child's visits in `childNodes` order. */
  function Preorder(t: Node, depth: nat, place: Place): seq<Visit>
    decreases t, |t.ChildNodes()| + 1
  {
    [Visit(t, depth, place)] + ChildVisits(t, depth, 0)
  }

  /** The visits of children `i..` of `t`, one after the other. */
  function ChildVisits(t: Node, depth: nat, i: nat): seq<Visit>
    decreases t, |t.ChildNodes()| - i
  {
    if t.Text? || i >= |t.children| then []
    else Preorder(t.children[i], depth + 1, Child(t, i)) + ChildVisits(t, depth, i + 1)
  }

  /** Every node occurrence of a tree: the node and, recursively, its children's. */
  function Subtrees(t: Node): multiset<Node>
    decreases t, |t.ChildNodes()| + 1
  {
    multiset{t} + ChildSubtrees(t, 0)
  }

  function ChildSubtrees(t: Node, i: nat): multiset<Node>
    decreases t, |t.ChildNodes()| - i
  {
    if t.Text? || i >= |t.children| then multiset{}
    else Subtrees(t.children[i]) + ChildSubtrees(t, i + 1)
  }

  function Nodes(vs: seq<Visit>): (r: seq<Node>)
  {
    seq(|vs|, k requires 0 <= k < |vs| => vs[k].node)
  }

  lemma NodesConcat(a: seq<Visit>, b: seq<Visit>)
    ensures Nodes(a + b) == Nodes(a) + Nodes(b)
  {
  }

  /** Every node of the tree is visited exactly once: the visited nodes, counted
      with multiplicity, are the tree's nodes; so there are as many visits as nodes. */
  lemma {:induction false} PreorderVisitsEachNodeOnce(t: Node, depth: nat, place: Place)
    ensures multiset(Nodes(Preorder(t, depth, place))) == Subtrees(t)
    ensures |Preorder(t, depth, place)| == |Subtrees(t)|
    decreases t, |t.ChildNodes()| + 1
  {
    var head, rest := [Visit(t, depth, place)], ChildVisits(t, depth, 0);
    ChildVisitsEachNodeOnce(t, depth, 0);
    NodesConcat(head, rest);
    assert Nodes(head) == [t];
    assert multiset(Nodes(head + rest)) == multiset{t} + multiset(Nodes(rest));
    assert |multiset(Nodes(head + rest))| == |head + rest|;
  }

  lemma {:induction false} ChildVisitsEachNodeOnce(t: Node, depth: nat, i: nat)
    ensures multiset(Nodes(ChildVisits(t, depth, i))) == ChildSubtrees(t, i)
    decreases t, |t.ChildNodes()| - i
  {
    if !t.Text? && i < |t.children| {
      var first, rest := Preorder(t.children[i], depth + 1, Child(t, i)), ChildVisits(t, depth, i + 1);
      PreorderVisitsEachNodeOnce(t.children[i], depth + 1, Child(t, i));
      ChildVisitsEachNodeOnce(t, depth, i + 1);
      NodesConcat(first, rest);
      assert multiset(Nodes(first + rest)) == multiset(Nodes(first)) + multiset(Nodes(rest));
    }
  }

  /** A visit's place is consistent with the tree: the node is the child its place names. */
  predicate Placed(v: Visit)
  {
    v.place.Child? ==>
      v.place.index < |v.place.parent.ChildNodes()| && v.place.parent.ChildNodes()[v.place.index] == v.node
  }

  /** The parent of visit `k` was visited earlier, one level up. */
  predicate ParentEarlier(vs: seq<Visit>, k: nat)
    requires k < |vs|
  {
    vs[k].place.Child? &&
    exists j :: 0 <= j < k && vs[j].node == vs[k].place.parent && vs[j].depth + 1 == vs[k].depth
  }

  lemma ParentEarlierShift(a: seq<Visit>, b: seq<Visit>, k: nat)
    requires k < |b| && ParentEarlier(b, k)
    ensures ParentEarlier(a + b, |a| + k)
  {
    var j :| 0 <= j < k && b[j].node == b[k].place.parent && b[j].depth + 1 == b[k].depth;
    assert (a + b)[|a| + j] == b[j];
  }

  lemma ParentEarlierPrefix(a: seq<Visit>, b: seq<Visit>, k: nat)
    requires k < |a| && ParentEarlier(a, k)
    ensures ParentEarlier(a + b, k)
  {
    var j :| 0 <= j < k && a[j].node == a[k].place.parent && a[j].depth + 1 == a[k].depth;
    assert (a + b)[j] == a[j];
  }

  /** Pre-order shape: the first visit is the node itself at the given depth
      and place; every later visit is of a node that sits where its place says,
      deeper than the first, and its parent was visited earlier, exactly one
      level up. */
  lemma {:induction false} PreorderShape(t: Node, depth: nat, place: Place, k: nat)
    requires k < |Preorder(t, depth, place)|
    ensures k == 0 ==> Preorder(t, depth, place)[k] == Visit(t, depth, place)
    ensures k > 0 ==> Placed(Preorder(t, depth, place)[k])
    ensures k > 0 ==> Preorder(t, depth, place)[k].depth > depth
    ensures k > 0 ==> ParentEarlier(Preorder(t, depth, place), k)
    decreases t, |t.ChildNodes()| + 1, 0
  {
    if k == 0 {
      return;
    }
    var vs := Preorder(t, depth, place);
    var cs := ChildVisits(t, depth, 0);
    assert vs[k] == cs[k - 1];
    ChildVisitsShape(t, depth, 0, k - 1);
    if vs[k].place.Child? && vs[k].place.parent == t && vs[k].depth == depth + 1 {
      assert vs[0].node == t;
    } else {
      ParentEarlierShift([Visit(t, depth, place)], cs, k - 1);
    }
  }

  lemma {:induction false} ChildVisitsShape(t: Node, depth: nat, i: nat, k: nat)
    requires k < |ChildVisits(t, depth, i)|
    ensures Placed(ChildVisits(t, depth, i)[k])
    ensures ChildVisits(t, depth, i)[k].depth > depth
    ensures var v := ChildVisits(t, depth, i)[k];
      (v.place.Child? && v.place.parent == t && v.depth == depth + 1) || ParentEarlier(ChildVisits(t, depth, i), k)
    decreases t, |t.ChildNodes()| - i, 1
  {
    var a := Preorder(t.children[i], depth + 1, Child(t, i));
    var b := ChildVisits(t, depth, i + 1);
    var cs := ChildVisits(t, depth, i);
    assert cs == a + b;
    if k == 0 {
      assert cs[0] == Visit(t.children[i], depth + 1, Child(t, i));
    } else if k < |a| {
      assert cs[k] == a[k];
      PreorderShape(t.children[i], depth + 1, Child(t, i), k);
      ParentEarlierPrefix(a, b, k);
    } else {
      assert cs[k] == b[k - |a|];
      ChildVisitsShape(t, depth, i + 1, k - |a|);
      if !(cs[k].place.Child? && cs[k].place.parent == t && cs[k].depth == depth + 1) {
        ParentEarlierShift(a, b, k - |a|);
      }
    }
  }

  /** No two node occurrences of the visits share an id: ids stand for the
      object identity that the source compares. */
  predicate DistinctIds(vs: seq<Visit>)
  {
    forall i, j | 0 <= i < j < |vs| :: vs[i].node.id != vs[j].node.id
  }

  predicate UniqueIds(dom: Node)
  {
    DistinctIds(Preorder(dom, 0, Root))
  }

  /** Every visited node is a node of the tree. */
  lemma VisitedNodesInTree(t: Node, k: nat)
    requires k < |Preorder(t, 0, Root)|
    ensures Preorder(t, 0, Root)[k].node in Subtrees(t)
  {
    PreorderVisitsEachNodeOnce(t, 0, Root);
    var vs := Preorder(t, 0, Root);
    assert Nodes(vs)[k] == vs[k].node;
  }
}
