/**
 The linked trie: nodes with a sorted first-byte index over their children.

 `Tree` adds to a root node the ghost map from positions to nodes. Its shape invariant is flat
 (one clause per position), so that a change to one node is a change to one clause.
 */
module Trie {
  import opened Text
  import opened Patterns
  import opened RouteTable
  import opened PathMap

  class Node {
    const path: string
    var paramName: string
    var fullPath: string
    var indices: string
    var children: seq<Node>
    var handler: Option<Handler>
    var paramKeys: seq<string>
    var routeName: string

    constructor (path: string, paramName: string)
      ensures this.path == path && this.paramName == paramName
      ensures indices == "" && children == [] && handler == None
    {
      this.path := path;
      this.paramName := paramName;
      fullPath, indices, children, handler, paramKeys, routeName := "", "", [], None, [], "";
    }

    /** The index is usable: one byte per child, at the child's place, in order. */
    ghost predicate Indexed()
      reads this
    {
      Aligned(indices, children) && Ordered(indices)
    }

    /** The fields `finalizeRouteRegistrationLocked` writes. */
    method SetRoute(handler: Handler, keys: seq<string>, pattern: string, name: string)
      modifies this`handler, this`paramKeys, this`fullPath, this`routeName
      ensures Carried() == old(Carried()).(endpoint := Some(Endpoint(handler, keys, pattern, name)))
    {
      this.handler := Some(handler);
      paramKeys := keys;
      fullPath := pattern;
      routeName := name;
    }

    ghost function Carried(): Payload
      reads this
    {
      Payload(paramName, if handler.Some? then Some(Endpoint(handler.value, paramKeys, fullPath, routeName)) else None)
    }
  }

  /** The index holds the first byte of each child, at the child's place. */
  ghost predicate Aligned(indices: string, children: seq<Node>) {
    && |indices| == |children|
    && forall k :: 0 <= k < |children| ==> children[k].path != "" && indices[k] == children[k].path[0]
  }

  predicate Ordered(indices: string) {
    forall j, k :: 0 <= j < k < |indices| ==> indices[j] <= indices[k]
  }

  /** `strings.IndexByte`, from a given place on. */
  function IndexByte(s: string, b: char, from: nat): (i: int)
    requires from <= |s|
    ensures i == -1 || from <= i < |s|
    ensures i == -1 ==> forall k :: from <= k < |s| ==> s[k] != b
    ensures i >= 0 ==> s[i] == b && forall k :: from <= k < i ==> s[k] != b
    decreases |s| - from
  {
    if from == |s| then -1 else if s[from] == b then from else IndexByte(s, b, from + 1)
  }

  /** `findStaticChild`: a scan for few children, the index otherwise. */
  method FindStaticChild(parent: Node, path: string) returns (child: Node?)
    requires parent.Indexed()
    ensures child != null ==> child in parent.children && child.path == path
    ensures child == null ==> forall c :: c in parent.children ==> c.path != path
  {
    var n := |parent.children|;
    if n <= 2 || |parent.indices| == 0 || |path| == 0 {
      for i := 0 to n
        invariant forall k :: 0 <= k < i ==> parent.children[k].path != path
      {
        if parent.children[i].path == path {
          return parent.children[i];
        }
      }
      return null;
    }
    var first := path[0];
    var i := IndexByte(parent.indices, first, 0);
    if i == -1 {
      return null;
    }
    while i < n && parent.indices[i] == first
      invariant 0 <= i <= n
      invariant i < n ==> parent.indices[i] >= first
      invariant forall k :: 0 <= k < i ==> parent.children[k].path != path
    {
      if parent.children[i].path == path {
        return parent.children[i];
      }
      i := i + 1;
    }
    return null;
  }

  /** `findChildByByte`: the first child whose path starts with the byte. */
  method FindChildByByte(parent: Node, b: char) returns (child: Node?)
    requires parent.Indexed()
    ensures child != null ==> child in parent.children && child.path != "" && child.path[0] == b
    ensures child == null ==> forall c :: c in parent.children ==> c.path != "" && c.path[0] != b
  {
    if |parent.children| == 0 {
      return null;
    }
    var i := IndexByte(parent.indices, b, 0);
    if i >= 0 {
      return parent.children[i];
    }
    return null;
  }

  /** Go's `string(b)` for a byte: the UTF-8 encoding of the rune, two bytes from 0x80 on. */
  function Widen(b: char): (s: string)
    requires b < 256 as char
    ensures |s| == 1 <==> b < 128 as char
    ensures |s| == 1 ==> s == [b]
  {
    if b < 128 as char then [b]
    else [(0xC0 + b as int / 64) as char, (0x80 + b as int % 64) as char]
  }

  /** Where `insertChild` stops: behind the index bytes, from the front, that are not larger. */
  function Place(indices: string, b: char): (i: nat)
    ensures i <= |indices| && (forall k :: 0 <= k < i ==> indices[k] <= b) && (i < |indices| ==> indices[i] > b)
  {
    if indices == "" || indices[0] > b then 0 else 1 + Place(indices[1..], b)
  }

  function IndexWith(indices: string, b: char): string
    requires b < 256 as char
  {
    indices[..Place(indices, b)] + Widen(b) + indices[Place(indices, b)..]
  }

  lemma {:induction false} PlaceIs(indices: string, b: char, i: nat)
    requires i <= |indices| && (forall k :: 0 <= k < i ==> indices[k] <= b) && (i < |indices| ==> indices[i] > b)
    ensures i == Place(indices, b)
  {
    if i > 0 {
      PlaceIs(indices[1..], b, i - 1);
    }
  }

  lemma InsertOrdered(indices: string, b: char)
    requires Ordered(indices) && b < 128 as char
    ensures Ordered(IndexWith(indices, b))
  {
    var i, next := Place(indices, b), IndexWith(indices, b);
    forall j, k | 0 <= j < k < |next|
      ensures next[j] <= next[k]
    {
      InsertedAt(indices, b, j);
      InsertedAt(indices, b, k);
      if j < i < k {
        assert indices[j] <= b && (k - 1 == i || indices[i] <= indices[k - 1]);
      }
    }
  }

  lemma InsertedAt(indices: string, b: char, k: nat)
    requires b < 128 as char && k <= |indices|
    ensures var i := Place(indices, b);
            && |IndexWith(indices, b)| == |indices| + 1
            && IndexWith(indices, b)[k] == if k < i then indices[k] else if k == i then b else indices[k - 1]
  {
  }

  lemma InsertAligned(indices: string, children: seq<Node>, child: Node)
    requires Aligned(indices, children) && child.path != "" && child.path[0] < 128 as char
    ensures var i := Place(indices, child.path[0]);
            Aligned(IndexWith(indices, child.path[0]), children[..i] + [child] + children[i..])
  {
    var i, next := Place(indices, child.path[0]), IndexWith(indices, child.path[0]);
    var all := children[..i] + [child] + children[i..];
    forall k | 0 <= k < |all|
      ensures all[k].path != "" && next[k] == all[k].path[0]
    {
      if k != i {
        var was := if k < i then k else k - 1;
        assert all[k] == children[was] && next[k] == indices[was];
      }
    }
  }

  /** A usable index stays one exactly for an ASCII byte. */
  lemma InsertKeepsIndex(indices: string, children: seq<Node>, child: Node)
    requires Aligned(indices, children) && Ordered(indices) && child.path != "" && child.path[0] < 256 as char
    ensures Place(indices, child.path[0]) <= |children|
    ensures var i, next := Place(indices, child.path[0]), IndexWith(indices, child.path[0]);
            && (Aligned(next, children[..i] + [child] + children[i..]) <==> child.path[0] < 128 as char)
            && (child.path[0] < 128 as char ==> Ordered(next))
  {
    if child.path[0] < 128 as char {
      InsertOrdered(indices, child.path[0]);
      InsertAligned(indices, children, child);
    }
  }

  /**
   `insertChild`. The place found in the index is used among the children, which the source can do
   only up to their number; past it the source panics, and nothing is promised. From an index that
   is usable it does not, and the index stays aligned with the children exactly when the new child's
   path starts with an ASCII byte: from 0x80 on the source stores two index bytes for one child.
   */
  method InsertChild(parent: Node, child: Node) returns (ok: bool, ghost place: nat)
    requires child.path != "" && child.path[0] < 256 as char
    modifies parent`indices, parent`children
    ensures place == Place(old(parent.indices), child.path[0]) && (ok <==> place <= |old(parent.children)|)
    ensures ok ==> parent.children == old(parent.children)[..place] + [child] + old(parent.children)[place..]
    ensures ok ==> parent.indices == IndexWith(old(parent.indices), child.path[0])
    ensures old(parent.Indexed()) ==> ok && (Aligned(parent.indices, parent.children) <==> child.path[0] < 128 as char)
    ensures old(parent.Indexed()) && child.path[0] < 128 as char ==> parent.Indexed()
  {
    var i := 0;
    while i < |parent.indices| && parent.indices[i] <= child.path[0]
      invariant 0 <= i <= |parent.indices|
      invariant forall k :: 0 <= k < i ==> parent.indices[k] <= child.path[0]
    {
      i := i + 1;
    }
    PlaceIs(parent.indices, child.path[0], i);
    if parent.Indexed() {
      InsertKeepsIndex(parent.indices, parent.children, child);
    }
    place := i;
    parent.indices := parent.indices[..i] + Widen(child.path[0]) + parent.indices[i..];
    if i > |parent.children| {
      return false, place;
    }
    parent.children := parent.children[..i] + [child] + parent.children[i..];
    return true, place;
  }

  /**
   After one child whose path starts with a byte `b` from 0x80 on, the next insertion panics exactly
   when its byte is at least every byte of the index: those there before, and the first of the two
   bytes that stand for `b`.
   */
  lemma NextInsertPanics(indices: string, b: char, c: char)
    requires 128 as char <= b < 256 as char
    ensures Place(IndexWith(indices, b), c) > |indices| + 1 <==> Widen(b)[0] <= c && AtMost(indices, c)
  {
    var next, i, w := IndexWith(indices, b), Place(indices, b), Widen(b);
    WidenFalls(b);
    AtMostConcat(indices[..i] + w, indices[i..], c);
    AtMostConcat(indices[..i], w, c);
    AtMostConcat(indices[..i], indices[i..], c);
    assert indices[..i] + indices[i..] == indices;
    assert AtMost(w, c) <==> w[0] <= c;
    assert AtMost(next, c) <==> Place(next, c) == |next|;
  }

  predicate AtMost(s: string, c: char) {
    forall k :: 0 <= k < |s| ==> s[k] <= c
  }

  lemma AtMostConcat(s: string, t: string, c: char)
    ensures AtMost(s + t, c) <==> AtMost(s, c) && AtMost(t, c)
  {
    if AtMost(s + t, c) {
      assert forall k :: 0 <= k < |s| ==> s[k] == (s + t)[k];
      assert forall k :: 0 <= k < |t| ==> t[k] == (s + t)[|s| + k];
    }
  }

  lemma WidenFalls(b: char)
    requires 128 as char <= b < 256 as char
    ensures |Widen(b)| == 2 && Widen(b)[1] < Widen(b)[0]
  {
  }

  /** Two routes under one node whose text starts with "\u00e9" in UTF-8, so with the byte 0xC3, are such a case. */
  lemma AccentedSiblingsPanic()
    ensures Place(IndexWith("", 0xC3 as char), 0xC3 as char) > 1
  {
    NextInsertPanics("", 0xC3 as char, 0xC3 as char);
  }

  /** A path a trie node may be stored under: ASCII first byte, captures only as ":" and "*". */
  predicate HeadOk(h: string) {
    h != "" && h[0] < 128 as char && (h[0] == ':' ==> h == ":") && (h[0] == '*' ==> h == "*")
  }

  ghost predicate HeadsOk(segs: seq<Segment>) {
    forall i :: 0 <= i < |segs| ==> HeadOk(Head(segs[i]))
  }

  /** Static text starting with an ASCII byte is what `HeadsOk` asks of a well-formed pattern. */
  lemma HeadsOkIff(segs: seq<Segment>)
    requires WellFormed(segs)
    ensures HeadsOk(segs) <==> forall i :: 0 <= i < |segs| && segs[i].Static? ==> segs[i].raw[0] < 128 as char
  {
    forall i | 0 <= i < |segs|
      ensures HeadOk(Head(segs[i])) <==> (segs[i].Static? ==> segs[i].raw[0] < 128 as char)
    {
      assert SegmentOk(segs[i]);
    }
  }

  datatype InsertError = NameMismatch | DuplicateRoute

  /** The children of the node at `p` are the nodes at the positions right under `p`. */
  ghost predicate LinkedAt(at: map<Position, Node>, p: Position, children: seq<Node>) {
    && (forall k :: 0 <= k < |children| ==>
                      Under(p, children[k].path) in at && at[Under(p, children[k].path)] == children[k])
    && (forall h :: Under(p, h) in at ==> at[Under(p, h)] in children && at[Under(p, h)].path == h && HeadOk(h))
  }

  /** A node put under `p` leaves the links of every other position alone. */
  lemma OtherLinked(at: map<Position, Node>, p: Position, child: Node, q: Position, children: seq<Node>)
    requires LinkedAt(at, q, children) && q != p
    ensures LinkedAt(at[Under(p, child.path) := child], q, children)
  {
  }

  lemma ParentLinked(at: map<Position, Node>, p: Position, child: Node, children: seq<Node>, place: nat)
    requires LinkedAt(at, p, children) && place <= |children| && HeadOk(child.path) && Under(p, child.path) !in at
    ensures LinkedAt(at[Under(p, child.path) := child], p, children[..place] + [child] + children[place..])
  {
    var all := children[..place] + [child] + children[place..];
    assert all[place] == child;
    assert forall k :: 0 <= k < |all| ==> all[k] == child || all[k] in children;
    forall c | c in children
      ensures c in all
    {
      var k :| 0 <= k < |children| && children[k] == c;
      assert all[if k < place then k else k + 1] == c;
    }
  }

  /** The node at `p` has a usable index, the right children, and carries what `view` says. */
  ghost predicate Linked(at: map<Position, Node>, nodes: set<Node>, view: Positions, p: Position)
    requires p in at && p in view
    reads nodes
  {
    at[p] in nodes && at[p].Indexed() && LinkedAt(at, p, at[p].children) && at[p].Carried() == view[p]
  }

  ghost predicate Closed(at: map<Position, Node>) {
    && (forall p, h :: Under(p, h) in at ==> p in at)
    && (forall p, q :: p in at && q in at && at[p] == at[q] ==> p == q)
  }

  ghost predicate Shaped(at: map<Position, Node>, nodes: set<Node>, view: Positions)
    reads nodes
  {
    && Closed(at) && view.Keys == at.Keys
    && forall p {:trigger Linked(at, nodes, view, p)} :: p in at ==> Linked(at, nodes, view, p)
  }

  /** Links are right again once the node put among the children of `p` is at its position. */
  lemma Relink(at: map<Position, Node>, nodes: set<Node>, view: Positions, p: Position, child: Node, before: seq<Node>,
               place: nat)
    requires p in at && at[p] in nodes && Closed(at) && child !in nodes && view.Keys == at.Keys
    requires at[p].Carried() == view[p]
    requires forall q :: q in at && q != p ==> Linked(at, nodes, view, q)
    requires LinkedAt(at, p, before) && place <= |before| && HeadOk(child.path) && Under(p, child.path) !in at
    requires at[p].Indexed() && at[p].children == before[..place] + [child] + before[place..]
    requires child.Indexed() && child.children == []
    ensures var q := Under(p, child.path);
            Shaped(at[q := child], nodes + {child}, view[q := child.Carried()])
  {
    var at' := at[Under(p, child.path) := child];
    var view' := view[Under(p, child.path) := child.Carried()];
    ParentLinked(at, p, child, before, place);
    forall q | q in at'
      ensures Linked(at', nodes + {child}, view', q)
    {
      if q in at && q != p {
        assert Linked(at, nodes, view, q);
        OtherLinked(at, p, child, q, at[q].children);
      }
    }
    forall q | q in at
      ensures at[q] in nodes
    {
      assert q != p ==> Linked(at, nodes, view, q);
    }
  }

  /** The shape holds again once the view says what the node at `p` carries. */
  lemma Review(at: map<Position, Node>, nodes: set<Node>, view: Positions, p: Position)
    requires Closed(at) && view.Keys == at.Keys && p in at && at[p] in nodes
    requires at[p].Indexed() && LinkedAt(at, p, at[p].children)
    requires forall q {:trigger Linked(at, nodes, view, q)} :: q in at && q != p ==> Linked(at, nodes, view, q)
    ensures Shaped(at, nodes, view[p := at[p].Carried()])
  {
    forall q | q in at
      ensures Linked(at, nodes, view[p := at[p].Carried()], q)
    {
      assert q != p ==> Linked(at, nodes, view, q);
    }
  }

  class Tree {
    const root: Node
    ghost var at: map<Position, Node>
    ghost var nodes: set<Node>
    ghost var view: Positions
    ghost var routes: seq<Route>

    /** The nodes hold `view`, position by position. */
    ghost predicate Shape()
      reads this, nodes
    {
      Root in at && at[Root] == root && Shaped(at, nodes, view)
    }

    ghost predicate Valid()
      reads this, nodes
    {
      Shape() && Represents(view, routes)
    }

    /** The first `&node{}` a method gets. */
    constructor ()
      ensures Valid() && fresh(nodes) && routes == []
    {
      var r := new Node("", "");
      root := r;
      at := map[Root := r];
      nodes := {r};
      view := map[Root := Payload("", None)];
      routes := [];
      new;
      EmptyRepresents();
    }

    lemma ChildAt(p: Position, h: string)
      requires Shape() && p in at
      ensures at[p] in nodes && at[p].Indexed() && at[p].Carried() == view[p]
      ensures Under(p, h) in at ==> at[Under(p, h)] in at[p].children && at[Under(p, h)].path == h
      ensures forall c :: c in at[p].children && c.path == h ==> Under(p, h) in at && at[Under(p, h)] == c
    {
      assert Linked(at, nodes, view, p);
    }

    /** A child found by its first byte ':' or '*' is the parameter or wildcard child. */
    lemma CaptureAt(p: Position, h: string)
      requires Shape() && p in at && (h == ":" || h == "*")
      ensures at[p] in nodes && at[p].Indexed()
      ensures forall c :: c in at[p].children && c.path != "" && c.path[0] == h[0] ==> Under(p, h) in at && at[Under(p, h)] == c
      ensures Under(p, h) in at ==> at[Under(p, h)] in at[p].children && at[Under(p, h)].path == h
    {
      assert Linked(at, nodes, view, p);
      forall c | c in at[p].children && c.path != "" && c.path[0] == h[0]
        ensures c.path == h
      {
        assert Under(p, c.path) in at;
      }
    }

    /** Creates the missing child of a position: `&node{...}` followed by `insertChild`. */
    method AddChild(ghost p: Position, parent: Node, path: string, paramName: string) returns (child: Node)
      requires Shape() && p in at && at[p] == parent && Under(p, path) !in at && HeadOk(path)
      modifies this`at, this`nodes, this`view, parent
      ensures Shape() && at == old(at)[Under(p, path) := child]
      ensures fresh(child) && nodes == old(nodes) + {child}
      ensures view == old(view)[Under(p, path) := Payload(paramName, None)]
    {
      assert Linked(at, nodes, view, p);
      child := new Node(path, paramName);
      var _, place := InsertChild(parent, child);
      forall q | q in at && q != p
        ensures Linked(at, nodes, view, q)
      {
        assert old(Linked(at, nodes, view, q));
        assert at[q] != parent;
      }
      Relink(at, nodes, view, p, child, old(parent.children), place);
      Enter(Under(p, path), child);
    }

    ghost method Enter(q: Position, child: Node)
      requires Root in at && at[Root] == root && q != Root
      requires Shaped(at[q := child], nodes + {child}, view[q := child.Carried()])
      modifies this`at, this`nodes, this`view
      ensures Shape() && at == old(at)[q := child] && nodes == old(nodes) + {child}
      ensures view == old(view)[q := child.Carried()]
    {
      at, nodes, view := at[q := child], nodes + {child}, view[q := child.Carried()];
    }

    /** The child that segment `i` continues at, if it exists. */
    method FindChild(ghost segs: seq<Segment>, ghost i: nat, seg: Segment, current: Node) returns (child: Node?)
      requires Shape() && i < |segs| && seg == segs[i] && SegmentOk(seg)
      requires At(segs, i) in at && at[At(segs, i)] == current
      ensures child == null ==> At(segs, i + 1) !in at
      ensures child != null ==> At(segs, i + 1) in at && at[At(segs, i + 1)] == child
    {
      ghost var p := At(segs, i);
      ChildAt(p, Head(seg));
      match seg
      case Static(raw) =>
        child := FindStaticChild(current, raw);
      case Param(_) =>
        CaptureAt(p, ":");
        child := FindChildByByte(current, ':');
      case Wild(_) =>
        CaptureAt(p, "*");
        child := FindChildByByte(current, '*');
    }

    /** The registration loop stands at `current` after the first `i` segments of a trie that held `m`. */
    ghost predicate Reached(m: Positions, segs: seq<Segment>, i: nat, current: Node)
      requires i <= |segs|
      reads this
    {
      view == Grown(m, segs, i) && At(segs, i) in at && at[At(segs, i)] == current && NamesAgree(m, segs, i)
    }

    method Create(ghost m: Positions, ghost segs: seq<Segment>, ghost i: nat, seg: Segment, current: Node)
      returns (next: Node)
      requires Shape() && i < |segs| && seg == segs[i] && HeadOk(Head(seg))
      requires Reached(m, segs, i, current) && At(segs, i + 1) !in at && At(segs, i + 1) !in m
      modifies this`at, this`nodes, this`view, nodes
      ensures Shape() && fresh(nodes - old(nodes)) && old(nodes) <= nodes
      ensures Reached(m, segs, i + 1, next)
    {
      ChildAt(At(segs, i), "");
      next := AddChild(At(segs, i), current, Head(seg), Name(seg));
    }

    /** One turn of the registration loop; `null` is a parameter name mismatch. */
    method Descend(ghost m: Positions, ghost segs: seq<Segment>, ghost i: nat, seg: Segment, current: Node)
      returns (next: Node?)
      requires Shape() && Represents(m, routes)
      requires i < |segs| && seg == segs[i] && Reached(m, segs, i, current) && SegmentOk(seg) && HeadOk(Head(seg))
      modifies this`at, this`nodes, this`view, nodes
      ensures Shape() && fresh(nodes - old(nodes)) && old(nodes) <= nodes
      ensures next == null ==> view == m && NameConflict(routes, segs)
      ensures next != null ==> Reached(m, segs, i + 1, next)
    {
      GrownHere(m, segs, i);
      next := FindChild(segs, i, seg, current);
      if next == null {
        next := Create(m, segs, i, seg, current);
      } else {
        next := Pass(m, segs, i, seg, next);
      }
    }

    /** An existing child is passed, unless it captures under another name. */
    method Pass(ghost m: Positions, ghost segs: seq<Segment>, ghost i: nat, seg: Segment, child: Node) returns (next: Node?)
      requires Shape() && Represents(m, routes) && i < |segs| && seg == segs[i] && SegmentOk(seg)
      requires view == Grown(m, segs, i) && NamesAgree(m, segs, i)
      requires At(segs, i + 1) in at && at[At(segs, i + 1)] == child
      ensures next == null ==> view == m && NameConflict(routes, segs)
      ensures next != null ==> Reached(m, segs, i + 1, next)
    {
      GrownHere(m, segs, i);
      ChildAt(At(segs, i + 1), "");
      ExistingStep(m, routes, segs, i);
      if !seg.Static? && child.paramName != Name(seg) {
        return null;
      }
      return child;
    }

    /** The registration loop; `null` is a parameter name mismatch. */
    method DescendAll(ghost m: Positions, segs: seq<Segment>) returns (current: Node?, keys: seq<string>)
      requires Shape() && Represents(m, routes) && WellFormed(segs) && HeadsOk(segs)
      requires Reached(m, segs, 0, root)
      modifies this`at, this`nodes, this`view, nodes
      ensures Shape() && fresh(nodes - old(nodes)) && old(nodes) <= nodes
      ensures current == null ==> view == m && NameConflict(routes, segs)
      ensures current != null ==> Reached(m, segs, |segs|, current) && keys == ParamKeys(segs)
    {
      current := root;
      keys := [];
      for i := 0 to |segs|
        invariant Shape() && fresh(nodes - old(nodes)) && old(nodes) <= nodes
        invariant current != null && Reached(m, segs, i, current)
        invariant keys == ParamKeys(segs[..i])
      {
        ParamKeysStep(segs, i);
        if !segs[i].Static? {
          keys := keys + [Name(segs[i])];
        }
        current := Descend(m, segs, i, segs[i], current);
        if current == null {
          return;
        }
      }
      assert segs[..|segs|] == segs;
    }

    /** `finalizeRouteRegistrationLocked`, the node part: the endpoint goes on the last node. */
    method SetEndpoint(ghost p: Position, node: Node, r: Route, keys: seq<string>)
      requires Shape() && p in at && at[p] == node && keys == ParamKeys(r.segs)
      modifies this`view, node`handler, node`paramKeys, node`fullPath, node`routeName
      ensures Shape() && view == old(view)[p := old(view)[p].(endpoint := Some(EndpointOf(r)))]
    {
      assert Linked(at, nodes, view, p);
      node.SetRoute(r.handler, keys, r.pattern, r.meta.name);
      forall q | q in at && q != p
        ensures Linked(at, nodes, view, q)
      {
        assert old(Linked(at, nodes, view, q));
        assert at[q] != node;
      }
      Review(at, nodes, view, p);
      view := view[p := node.Carried()];
    }

    /** The trie part of `AddRoute`: walk or create the nodes of the pattern, then finalize. */
    method Insert(segs: seq<Segment>, pattern: string, handler: Handler, meta: RouteMeta) returns (err: Option<InsertError>)
      requires Valid() && WellFormed(segs) && HeadsOk(segs)
      modifies this, nodes
      ensures Valid() && fresh(nodes - old(nodes)) && old(nodes) <= nodes
      ensures err == (if NameConflict(old(routes), segs) then Some(NameMismatch)
                      else if Taken(old(routes), segs) then Some(DuplicateRoute) else None)
      ensures err.None? ==> routes == old(routes) + [Route(pattern, segs, handler, meta)]
      ensures err.Some? ==> routes == old(routes) && view == old(view)
    {
      ghost var m := view;
      var current, keys := DescendAll(m, segs);
      if current == null {
        return Some(NameMismatch);
      }
      NamesAgreeNoConflict(m, routes, segs);
      err := Finalize(m, segs, current, keys, Route(pattern, segs, handler, meta));
    }

    /** The node part of `finalizeRouteRegistrationLocked`: refuses a taken node, else sets its endpoint. */
    method Finalize(ghost m: Positions, ghost segs: seq<Segment>, current: Node, keys: seq<string>, r: Route)
      returns (err: Option<InsertError>)
      requires Shape() && Represents(m, routes) && r.segs == segs && WellFormed(segs) && keys == ParamKeys(segs)
      requires Reached(m, segs, |segs|, current) && !NameConflict(routes, segs)
      modifies this`view, this`routes, nodes
      ensures Valid() && err == if Taken(old(routes), segs) then Some(DuplicateRoute) else None
      ensures err.None? ==> routes == old(routes) + [r]
      ensures err.Some? ==> routes == old(routes) && view == m
    {
      EndGrown(m, routes, segs);
      ChildAt(End(segs), "");
      if current.handler.Some? {
        return Some(DuplicateRoute);
      }
      AcceptRepresents(m, routes, r);
      SetEndpoint(End(segs), current, r, keys);
      routes := routes + [r];
      err := None;
    }

    /** The root carries a handler exactly when a route without segments is registered. */
    lemma RootEndpoint()
      requires Valid()
      ensures root in nodes
      ensures Arrive(view, Root, []) == GreedyMatch(routes, [], "/")
      ensures root.Carried() == view[Root]
    {
      ChildAt(Root, "");
      ArriveIsFinish(view, routes, Root, []);
      ThroughRoot(routes);
    }

    /** `matchNode`: static child, else parameter child, else wildcard child; never back. */
    method MatchNode(parts: seq<string>, raw: string) returns (result: Option<MatchResult>)
      requires Valid() && Dispatchable(parts, raw)
      ensures result == GreedyMatch(routes, parts, raw)
    {
      var current := root;
      var values: seq<string> := [];
      ghost var p := Root;
      WalkIsGreedy(view, routes, parts, raw);
      for i := 0 to |parts|
        invariant p in at && at[p] == current
        invariant Walk(view, Root, 0, parts, raw, []) == Walk(view, p, i, parts, raw, values)
      {
        if parts[i] == "" {
          return None;
        }
        ChildAt(p, parts[i]);
        var child := FindStaticChild(current, parts[i]);
        if child != null {
          current, p := child, Under(p, parts[i]);
          continue;
        }
        CaptureAt(p, ":");
        child := FindChildByByte(current, ':');
        if child != null {
          values := values + [parts[i]];
          current, p := child, Under(p, ":");
          continue;
        }
        CaptureAt(p, "*");
        child := FindChildByByte(current, '*');
        if child == null {
          return None;
        }
        var off := OffsetOf(parts, i);
        OffsetWithin(parts, raw, i);
        values := values + [raw[off..]];
        current, p := child, Under(p, "*");
        assert Walk(view, Root, 0, parts, raw, []) == Arrive(view, p, values);
        break;
      }
      ChildAt(p, "");
      if current.handler.None? {
        return None;
      }
      return Some(MatchResult(current.handler.value, values, current.paramKeys, current.fullPath, "", current.routeName));
    }
  }

  /** The offset loop of the wildcard case. */
  method OffsetOf(parts: seq<string>, i: nat) returns (off: nat)
    requires i <= |parts|
    ensures off == Offset(parts, i)
  {
    off := 1;
    for j := 0 to i
      invariant off == Offset(parts, j)
    {
      off := off + |parts[j]| + 1;
    }
  }
}
