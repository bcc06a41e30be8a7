/** The element tree that the code generator builds from parser events
    (tools/xml2cpp-codegen/xml.cpp, xml.h). */
module XmlTree {
  import opened Options

  /** A node without its character data. */
  datatype Node = Node(name: string, attrs: map<string, string>, children: seq<Node>)

  datatype Event = Start(name: string, atts: seq<(string, string)>) | End

  /** The attributes of a node, one assignment after the other. */
  function Attributes(atts: seq<(string, string)>): map<string, string> {
    if atts == [] then map[]
    else Attributes(atts[..|atts| - 1])[atts[|atts| - 1].0 := atts[|atts| - 1].1]
  }

  /** Position `i` is the last one with its name. */
  predicate IsLastOfName(atts: seq<(string, string)>, i: nat) {
    i < |atts| && forall j | i < j < |atts| :: atts[j].0 != atts[i].0
  }

  predicate IsName(atts: seq<(string, string)>, name: string) {
    exists i | 0 <= i < |atts| :: atts[i].0 == name
  }

  /** Every attribute that is written is there, with the last value written for its name, and no
      other. */
  ghost predicate AsWritten(attrs: map<string, string>, atts: seq<(string, string)>) {
    && (forall i: nat | IsLastOfName(atts, i) :: atts[i].0 in attrs && attrs[atts[i].0] == atts[i].1)
    && (forall name | name in attrs :: IsName(atts, name))
  }

  lemma LastBefore(atts: seq<(string, string)>, i: nat)
    requires IsLastOfName(atts, i) && i < |atts| - 1
    ensures IsLastOfName(atts[..|atts| - 1], i) && atts[|atts| - 1].0 != atts[i].0
  {
  }

  lemma StillName(atts: seq<(string, string)>, n: nat, name: string)
    requires n <= |atts|
    ensures IsName(atts[..n], name) ==> IsName(atts, name)
  {
    if i :| 0 <= i < n && atts[..n][i].0 == name { assert atts[i].0 == name; }
  }

  lemma {:induction false} AttributesAsWritten(atts: seq<(string, string)>)
    ensures AsWritten(Attributes(atts), atts)
  {
    hide IsLastOfName, IsName;
    if atts != [] {
      var n := |atts| - 1;
      AttributesAsWritten(atts[..n]);
      forall i: nat | IsLastOfName(atts, i)
        ensures i < |atts| && atts[i].0 in Attributes(atts) && Attributes(atts)[atts[i].0] == atts[i].1
      {
        InRange(atts, i);
        if i < n { LastBefore(atts, i); }
      }
      forall name | name in Attributes(atts) ensures IsName(atts, name) {
        StillName(atts, n, name);
        NameAt(atts, n);
      }
    } else {
      forall i: nat ensures !IsLastOfName(atts, i) { if IsLastOfName(atts, i) { InRange(atts, i); } }
    }
  }

  lemma InRange(atts: seq<(string, string)>, i: nat)
    requires IsLastOfName(atts, i)
    ensures i < |atts|
  {
  }

  lemma NameAt(atts: seq<(string, string)>, i: nat)
    requires i < |atts|
    ensures IsName(atts, atts[i].0)
  {
  }

  /** `steps` times from a node to the last of its children. */
  predicate Walkable(node: Node, steps: nat)
    decreases steps
  {
    steps == 0 || (node.children != [] && Walkable(Last(node.children), steps - 1))
  }

  function Last<T>(list: seq<T>): T
    requires list != []
  {
    list[|list| - 1]
  }

  /** Where the walk ends: with one step fewer than elements are open, the innermost open one. */
  function Innermost(node: Node, steps: nat): Node
    requires Walkable(node, steps)
    decreases steps
  {
    if steps == 0 then node else Innermost(Last(node.children), steps - 1)
  }

  /** The walk can be made in two parts. */
  predicate WalkSplit(node: Node, k: nat, steps: nat) {
    Walkable(node, k) && k <= steps && Walkable(Innermost(node, k), steps - k)
  }

  /** On the way the next node is the last child of the one before. */
  lemma {:induction false} WalkFurther(node: Node, k: nat, steps: nat)
    requires k < steps && Walkable(node, steps)
    ensures WalkSplit(node, k, steps) && WalkSplit(node, k + 1, steps)
    ensures Innermost(node, k).children != []
    ensures Innermost(node, k + 1) == Last(Innermost(node, k).children)
    decreases k
  {
    if k > 0 {
      WalkFurther(Last(node.children), k - 1, steps - 1);
    }
  }

  /** The node where the walk ends has `child` as another last child and is now the one before it on
      the walk; the nodes on the way differ in their last child only. */
  ghost predicate AppendedAt(before: Node, after: Node, steps: nat, child: Node)
    requires Walkable(before, steps)
  {
    && Walkable(after, steps + 1)
    && Innermost(after, steps + 1) == child
    && (forall k: nat | k <= steps ::
          && Walkable(before, k) && Walkable(after, k)
          && var b, a := Innermost(before, k), Innermost(after, k);
             && a.name == b.name && a.attrs == b.attrs
             && (if k == steps then a.children == b.children + [child]
                 else |a.children| == |b.children| > 0
                      && a.children[..|a.children| - 1] == b.children[..|b.children| - 1]))
  }

  /** The node where the walk ends gets another child. */
  function Grow(node: Node, steps: nat, child: Node): (r: Node)
    requires Walkable(node, steps)
    ensures Walkable(r, steps + 1)
    decreases steps
  {
    if steps == 0 then Node(node.name, node.attrs, node.children + [child])
    else
      var n := |node.children| - 1;
      Node(node.name, node.attrs, node.children[n := Grow(node.children[n], steps - 1, child)])
  }

  lemma {:induction false} GrowAppends(node: Node, steps: nat, child: Node)
    requires Walkable(node, steps)
    ensures AppendedAt(node, Grow(node, steps, child), steps, child)
    decreases steps
  {
    var grown := Grow(node, steps, child);
    if steps == 0 {
      assert Last(grown.children) == child;
    } else {
      var last := Last(node.children);
      GrowAppends(last, steps - 1, child);
      assert Last(grown.children) == Grow(last, steps - 1, child);
      forall k: nat | 0 < k <= steps
        ensures Walkable(node, k) && Walkable(grown, k)
        ensures Innermost(node, k) == Innermost(last, k - 1)
        ensures Innermost(grown, k) == Innermost(Last(grown.children), k - 1)
      {
      }
    }
  }

  /** `Document` with its handlers. */
  class Document {
    var root: Option<Node>
    var depth: int    // m_depth

    constructor ()
      ensures root.None? && depth == 0
    {
      root, depth := None, 0;
    }

    /** The start of an element. */
    method StartElement(name: string, atts: seq<(string, string)>)
      requires root.Some? ==> depth >= 1 && Walkable(root.value, depth - 1)
      modifies this
      ensures depth == old(depth) + 1 && root.Some?
      ensures old(root).None? ==> root.value == Node(name, Attributes(atts), [])
      ensures old(root).Some? ==>
                AppendedAt(old(root).value, root.value, old(depth) - 1, Node(name, Attributes(atts), []))
      ensures AsWritten(Attributes(atts), atts)
      ensures Some((root, depth)) == Handle(old((root, depth)), Start(name, atts))
    {
      AttributesAsWritten(atts);
      hide AsWritten, Attributes;
      var node := Node(name, Attributes(atts), []);
      if root.None? {
        root := Some(node);
      } else {
        var grown := AppendChild(root.value, depth - 1, node);
        GrowAppends(root.value, depth - 1, node);
        root := Some(grown);
      }
      depth := depth + 1;
    }

    /** The pointer walk `cld = &cld->back().children` and the push_back at its end. On values, the
        nodes that the walk goes through are put together again afterwards. */
    static method AppendChild(top: Node, steps: nat, child: Node) returns (grown: Node)
      requires Walkable(top, steps)
      ensures grown == Grow(top, steps, child)
    {
      var path := [top];
      for i := 0 to steps
        invariant |path| == i + 1 && forall j | 0 <= j <= i :: Walkable(top, j) && path[j] == Innermost(top, j)
      {
        WalkFurther(top, i, steps);
        path := path + [Last(path[i].children)];
      }
      var k := steps;
      grown := Node(path[k].name, path[k].attrs, path[k].children + [child]);
      while k > 0
        invariant 0 <= k <= steps && WalkSplit(top, k, steps)
        invariant grown == Grow(Innermost(top, k), steps - k, child)
      {
        k := k - 1;
        WalkFurther(top, k, steps);
        grown := Node(path[k].name, path[k].attrs, path[k].children[|path[k].children| - 1 := grown]);
      }
    }

    /** The end of an element: the tree stays as it is, and the innermost open element is now the one
        whose last child it was before. */
    method EndElement()
      modifies this
      ensures root == old(root) && depth == old(depth) - 1
      ensures root.Some? && depth >= 1 && Walkable(root.value, depth) ==>
                && Walkable(root.value, depth - 1) && Innermost(root.value, depth - 1).children != []
                && Last(Innermost(root.value, depth - 1).children) == Innermost(root.value, depth)
      ensures Some((root, depth)) == Handle(old((root, depth)), End)
    {
      depth := depth - 1;
      if root.Some? && depth >= 1 && Walkable(root.value, depth) {
        WalkFurther(root.value, depth - 1, depth);
      }
    }

    /** Feeds the events of a document. */
    method Parse(events: seq<Event>)
      requires Feed((root, depth), events).Some?
      modifies this
      ensures Feed(old((root, depth)), events) == Some((root, depth))
    {
      ghost var before := (root, depth);
      assert events[0..] == events;
      for i := 0 to |events|
        invariant Feed((root, depth), events[i..]) == Feed(before, events)
      {
        assert events[i..][1..] == events[i + 1..];
        match events[i]
        case Start(name, atts) => StartElement(name, atts);
        case End => EndElement();
      }
    }
  }

  type Doc = (Option<Node>, int)

  /** One handler call; None if the walk through the last children is undefined. */
  function Handle(doc: Doc, event: Event): Option<Doc> {
    match event
    case End => Some((doc.0, doc.1 - 1))
    case Start(name, atts) =>
      var node := Node(name, Attributes(atts), []);
      if doc.0.None? then Some((Some(node), doc.1 + 1))
      else if doc.1 >= 1 && Walkable(doc.0.value, doc.1 - 1)
      then Some((Some(Grow(doc.0.value, doc.1 - 1, node)), doc.1 + 1))
      else None
  }

  function Feed(doc: Doc, events: seq<Event>): Option<Doc>
    decreases |events|
  {
    if events == [] then Some(doc)
    else match Handle(doc, events[0]) case Some(doc') => Feed(doc', events[1..]) case None => None
  }

  // ---------------------------------------------------------------------------------------

  /** An element as it is written. */
  datatype Element = Element(name: string, atts: seq<(string, string)>, children: seq<Element>)

  function Events(e: Element): seq<Event>
    decreases e, 0
  {
    [Start(e.name, e.atts)] + AllEvents(e.children) + [End]
  }

  function AllEvents(es: seq<Element>): seq<Event>
    decreases es, 1
  {
    if es == [] then [] else Events(es[0]) + AllEvents(es[1..])
  }

  function Tree(e: Element): Node
    decreases e, 0
  {
    Node(e.name, Attributes(e.atts), Trees(e.children))
  }

  function Trees(es: seq<Element>): seq<Node>
    decreases es, 1
  {
    if es == [] then [] else [Tree(es[0])] + Trees(es[1..])
  }

  /** The node stands for the element: its name, its attributes as written, and its children in their
      order at every level. */
  ghost predicate Depicts(node: Node, e: Element)
    decreases e
  {
    && node.name == e.name && AsWritten(node.attrs, e.atts) && |node.children| == |e.children|
    && forall i | 0 <= i < |e.children| :: Depicts(node.children[i], e.children[i])
  }

  lemma {:induction false} TreeDepicts(e: Element)
    ensures Depicts(Tree(e), e)
    decreases e, 0
  {
    AttributesAsWritten(e.atts);
    hide AsWritten, Attributes;
    TreesDepict(e.children);
  }

  lemma {:induction false} TreesDepict(es: seq<Element>)
    ensures |Trees(es)| == |es| && forall i | 0 <= i < |es| :: Depicts(Trees(es)[i], es[i])
    decreases es, 1
  {
    hide Depicts, Tree;
    if es != [] {
      TreeDepicts(es[0]);
      TreesDepict(es[1..]);
      assert forall i | 0 < i < |es| :: es[i] == es[1..][i - 1] && Trees(es)[i] == Trees(es[1..])[i - 1];
    }
  }

  lemma {:induction false} FeedOn(doc: Doc, events: seq<Event>, more: seq<Event>)
    ensures Feed(doc, events + more) ==
            match Feed(doc, events) case Some(doc') => Feed(doc', more) case None => None
    decreases |events|
  {
    if events == [] {
      assert events + more == more;
    } else {
      assert (events + more)[1..] == events[1..] + more;
      if Handle(doc, events[0]).Some? {
        FeedOn(Handle(doc, events[0]).value, events[1..], more);
      }
    }
  }

  /** All of `nodes` become children of the node where the walk ends. */
  function GrowAll(node: Node, steps: nat, nodes: seq<Node>): (r: Node)
    requires Walkable(node, steps)
    ensures Walkable(r, steps)
    decreases |nodes|
  {
    if nodes == [] then node
    else
      assert Walkable(Grow(node, steps, nodes[0]), steps) by { ShorterWalk(Grow(node, steps, nodes[0]), steps); }
      GrowAll(Grow(node, steps, nodes[0]), steps, nodes[1..])
  }

  lemma {:induction false} ShorterWalk(node: Node, steps: nat)
    requires Walkable(node, steps + 1)
    ensures Walkable(node, steps)
    decreases steps
  {
    if steps > 0 {
      ShorterWalk(Last(node.children), steps - 1);
    }
  }

  /** Growing a new leaf is growing the whole subtree. */
  lemma {:induction false} GrowSubtree(node: Node, steps: nat, leaf: Node, child: Node)
    requires Walkable(node, steps)
    ensures Walkable(Grow(node, steps, leaf), steps + 1)
    ensures Grow(Grow(node, steps, leaf), steps + 1, child) ==
            Grow(node, steps, Node(leaf.name, leaf.attrs, leaf.children + [child]))
    decreases steps
  {
    if steps == 0 {
      var grown := Grow(node, 0, leaf);
      assert Last(grown.children) == leaf;
      assert (node.children + [leaf])[|node.children| := Grow(leaf, 0, child)] ==
             node.children + [Grow(leaf, 0, child)];
    } else {
      GrowSubtree(Last(node.children), steps - 1, leaf, child);
    }
  }

  lemma {:induction false} GrowAllSubtree(node: Node, steps: nat, leaf: Node, nodes: seq<Node>)
    requires Walkable(node, steps)
    ensures Walkable(Grow(node, steps, leaf), steps + 1)
    ensures GrowAll(Grow(node, steps, leaf), steps + 1, nodes) ==
            Grow(node, steps, Node(leaf.name, leaf.attrs, leaf.children + nodes))
    decreases |nodes|
  {
    if nodes == [] {
      assert leaf.children + nodes == leaf.children;
    } else {
      GrowSubtree(node, steps, leaf, nodes[0]);
      var leaf' := Node(leaf.name, leaf.attrs, leaf.children + [nodes[0]]);
      GrowAllSubtree(node, steps, leaf', nodes[1..]);
      assert leaf.children + [nodes[0]] + nodes[1..] == leaf.children + nodes;
    }
  }

  lemma {:induction false} FeedElement(root: Node, depth: int, e: Element)
    requires depth >= 1 && Walkable(root, depth - 1)
    ensures Feed((Some(root), depth), Events(e)) == Some((Some(Grow(root, depth - 1, Tree(e))), depth))
    decreases e, 0
  {
    hide Feed, Walkable, Grow, GrowAll, Attributes, Events, AllEvents, Tree, Trees;
    var leaf := Node(e.name, Attributes(e.atts), []);
    var grown := Grow(root, depth - 1, leaf);
    var start, events := [Start(e.name, e.atts)], AllEvents(e.children);
    ElementParts(e);
    FeedOne((Some(root), depth), start[0]);
    FeedOn((Some(root), depth), start, events);
    FeedOn((Some(root), depth), start + events, [End]);
    FeedElements(grown, depth + 1, e.children);
    GrowAllSubtree(root, depth - 1, leaf, Trees(e.children));
    FeedOne((Some(GrowAll(grown, depth, Trees(e.children))), depth + 1), End);
  }

  lemma ElementParts(e: Element)
    ensures Events(e) == [Start(e.name, e.atts)] + AllEvents(e.children) + [End]
    ensures Tree(e) == Node(e.name, Attributes(e.atts), [] + Trees(e.children))
  {
    hide Attributes, AllEvents, Trees;
  }

  lemma FeedOne(doc: Doc, event: Event)
    ensures Feed(doc, [event]) == Handle(doc, event)
  {
    hide Handle;
    assert [event][1..] == [];
  }

  lemma {:induction false} FeedElements(root: Node, depth: int, es: seq<Element>)
    requires depth >= 1 && Walkable(root, depth - 1)
    ensures Feed((Some(root), depth), AllEvents(es)) == Some((Some(GrowAll(root, depth - 1, Trees(es))), depth))
    decreases es, 1
  {
    if es != [] {
      FeedElement(root, depth, es[0]);
      var grown := Grow(root, depth - 1, Tree(es[0]));
      ShorterWalk(grown, depth - 1);
      FeedOn((Some(root), depth), Events(es[0]), AllEvents(es[1..]));
      FeedElements(grown, depth, es[1..]);
      assert Trees(es)[1..] == Trees(es[1..]);
    }
  }

  /** Feeding the events of an element to an empty document rebuilds exactly its tree: names,
      attributes and the order of children at every level. */
  lemma {:induction false} EventsRebuildTree(e: Element)
    ensures Feed((None, 0), Events(e)) == Some((Some(Tree(e)), 0)) && Depicts(Tree(e), e)
  {
    hide Depicts;
    TreeDepicts(e);
    var leaf := Node(e.name, Attributes(e.atts), []);
    FeedOn((None, 0), [Start(e.name, e.atts)], AllEvents(e.children));
    FeedOn((None, 0), [Start(e.name, e.atts)] + AllEvents(e.children), [End]);
    FeedElements(leaf, 1, e.children);
    GrowAllAtRoot(leaf, Trees(e.children));
    assert [] + Trees(e.children) == Trees(e.children);
  }

  lemma {:induction false} GrowAllAtRoot(leaf: Node, nodes: seq<Node>)
    ensures GrowAll(leaf, 0, nodes) == Node(leaf.name, leaf.attrs, leaf.children + nodes)
    decreases |nodes|
  {
    if nodes == [] {
      assert leaf.children + nodes == leaf.children;
    } else {
      GrowAllAtRoot(Grow(leaf, 0, nodes[0]), nodes[1..]);
      assert leaf.children + [nodes[0]] + nodes[1..] == leaf.children + nodes;
    }
  }

  function OpenElements(events: seq<Event>): int {
    if events == [] then 0 else OpenElements(events[..|events| - 1]) + if Last(events).Start? then 1 else -1
  }

  /** After every prefix of the events the walk was defined and `m_depth` is the number of elements
      that are open. */
  lemma PrefixDepth(e: Element, i: nat)
    requires i <= |Events(e)|
    ensures Feed((None, 0), Events(e)[..i]).Some?
    ensures Feed((None, 0), Events(e)[..i]).value.1 == OpenElements(Events(e)[..i])
  {
    EventsRebuildTree(e);
    FeedOn((None, 0), Events(e)[..i], Events(e)[i..]);
    assert Events(e)[..i] + Events(e)[i..] == Events(e);
    DepthCounts((None, 0), Events(e)[..i]);
  }

  lemma {:induction false} DepthCounts(doc: Doc, events: seq<Event>)
    requires Feed(doc, events).Some?
    ensures Feed(doc, events).value.1 == doc.1 + OpenElements(events)
    decreases |events|
  {
    if events != [] {
      var n := |events| - 1;
      assert events == events[..n] + [events[n]];
      FeedOn(doc, events[..n], [events[n]]);
      DepthCounts(doc, events[..n]);
    }
  }
}
