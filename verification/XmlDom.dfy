/**
 * The document tree in memory: nodes that know their parent, their neighbours, and their first and last child. What
 * each operation does to the links is stated on the tree of nodes they make up.
 */
module XmlDom {
  import opened CStrings
  import opened XmlAttributes
  import opened XmlTree

  // ----- trees of nodes

  /** A node and the trees of its children, in order. */
  datatype Shape = Shape(node: TiXmlNode, kids: seq<Shape>)

  function KidNodes(kids: seq<Shape>): (r: seq<TiXmlNode>)
    ensures |r| == |kids| && forall i :: 0 <= i < |kids| ==> r[i] == kids[i].node
  {
    seq(|kids|, i requires 0 <= i < |kids| => kids[i].node)
  }

  function Nodes(s: Shape): set<TiXmlNode>
  {
    {s.node} + NodesOf(s.kids)
  }

  function NodesOf(kids: seq<Shape>): set<TiXmlNode>
  {
    if kids == [] then {} else Nodes(kids[0]) + NodesOf(kids[1..])
  }

  /** No node is in the tree twice. */
  predicate Separate(s: Shape)
  {
    s.node !in NodesOf(s.kids) && AllSeparate(s.kids)
  }

  predicate AllSeparate(kids: seq<Shape>)
  {
    kids == [] || (Separate(kids[0]) && Nodes(kids[0]) !! NodesOf(kids[1..]) && AllSeparate(kids[1..]))
  }

  function At(nodes: seq<TiXmlNode>, i: int): TiXmlNode?
  {
    if 0 <= i < |nodes| then nodes[i] else null
  }

  /** The links of every node are those of the tree. */
  ghost predicate Linked(s: Shape)
    reads Nodes(s)
  {
    InNodesOf(s.kids);
    Lists(s.node, KidNodes(s.kids)) && AllLinked(s.kids)
  }

  ghost predicate AllLinked(kids: seq<Shape>)
    reads NodesOf(kids)
  {
    kids == [] || (Linked(kids[0]) && AllLinked(kids[1..]))
  }

  ghost predicate Lists(p: TiXmlNode, kids: seq<TiXmlNode>)
    reads p, kids
  {
    && p.firstChild == At(kids, 0) && p.lastChild == At(kids, |kids| - 1)
    && forall i :: 0 <= i < |kids| ==> Neighbours(p, kids, i)
  }

  ghost predicate Neighbours(p: TiXmlNode, kids: seq<TiXmlNode>, i: nat)
    requires i < |kids|
    reads kids
  {
    && kids[i].parent == p && kids[i].kind != Document
    && kids[i].prev == At(kids, i - 1) && kids[i].next == At(kids, i + 1)
  }

  ghost predicate IsTree(s: Shape)
    reads Nodes(s)
  {
    Separate(s) && Linked(s)
  }

  lemma {:induction false} InNodesOf(kids: seq<Shape>)
    ensures forall i :: 0 <= i < |kids| ==> kids[i].node in NodesOf(kids) && Nodes(kids[i]) <= NodesOf(kids)
  {
    if kids != [] {
      InNodesOf(kids[1..]);
      assert forall i :: 0 < i < |kids| ==> kids[i] == kids[1..][i - 1];
    }
  }

  datatype Kind = Document | ElementNode | TextNode

  /** What a tree of nodes holds, links aside. */
  datatype Content = Content(kind: Kind, value: string, attributes: seq<Attribute>, kids: seq<Content>)

  ghost function View(s: Shape): Content
    reads Nodes(s)
  {
    Content(s.node.kind, s.node.value, s.node.attributes, Views(s.kids))
  }

  ghost function Views(kids: seq<Shape>): (views: seq<Content>)
    reads NodesOf(kids)
    ensures |views| == |kids|
  {
    if kids == [] then [] else [View(kids[0])] + Views(kids[1..])
  }

  /** What is left of a tree when it is copied. */
  function Cut(v: Content): Content
    decreases v
  {
    Content(v.kind, CString(v.value), CopiedAttributes(Walked(v.attributes), []), CutAll(v.kids))
  }

  function CutAll(views: seq<Content>): (cut: seq<Content>)
    ensures |cut| == |views| && forall i :: 0 <= i < |views| ==> cut[i] == Cut(views[i])
    decreases views
  {
    if views == [] then [] else [Cut(views[0])] + CutAll(views[1..])
  }

  class TiXmlNode {
    const kind: Kind
    var value: string
    var attributes: seq<Attribute>
    var parent: TiXmlNode?
    var prev: TiXmlNode?
    var next: TiXmlNode?
    var firstChild: TiXmlNode?
    var lastChild: TiXmlNode?

    constructor (kind: Kind, value: string, attributes: seq<Attribute>)
      ensures this.kind == kind && this.value == value && this.attributes == attributes
      ensures parent == null && firstChild == null && lastChild == null
    {
      this.kind, this.value, this.attributes := kind, value, attributes;
      parent, prev, next, firstChild, lastChild := null, null, null, null, null;
    }

    method LinkEndChild(node: TiXmlNode, ghost s: Shape, ghost t: Shape) returns (r: TiXmlNode?)
      requires IsTree(s) && IsTree(t) && s.node == this && t.node == node && Nodes(s) !! Nodes(t)
      modifies this`firstChild, this`lastChild, node`parent, node`prev, node`next, KidNodes(s.kids)`next
      ensures node.kind == Document ==> r == null && unchanged(this) && unchanged(node) && unchanged(KidNodes(s.kids))
      ensures node.kind != Document ==>
        r == node && IsTree(Shape(this, s.kids + [t])) && Views(s.kids + [t]) == old(Views(s.kids + [t]))
    {
      if node.kind == Document {
        return null;
      }
      hide AllLinked, Separate, AllSeparate, NodesOf, AllIn, Views;
      hide Lists, Different, KidNodes, Roots, Ready, OnlyRootsMoved, Apart;
      ghost var n := |s.kids|;
      Prepared(s, t, n, n);
      assert Splice(s.kids, n, n, t) == s.kids + [t];
      assert KidNodes(s.kids)[..n] + [node] + KidNodes(s.kids)[n..] == KidNodes(s.kids) + [node];
      LinkLast(this, node, KidNodes(s.kids), s.kids + [t]);
      Inserted(Insertion(s, t, s.kids + [t]));
      r := node;
    }

    /** A node made a child, with what that does to the contents. */
    method Adopt(node: TiXmlNode, ghost s: Shape, ghost t: Shape) returns (ghost after: Shape)
      requires IsTree(s) && IsTree(t) && s.node == this && t.node == node
      requires Nodes(s) !! Nodes(t) && node.kind != Document
      modifies this`firstChild, this`lastChild, node`parent, node`prev, node`next, KidNodes(s.kids)`next
      ensures after.node == this && IsTree(after) && Nodes(after) == Nodes(s) + Nodes(t)
      ensures Views(after.kids) == old(Views(s.kids) + [View(t)])
    {
      hide IsTree, Views, View, NodesOf, Nodes;
      ViewsSnoc(s.kids, t);
      NodesSnoc(s, t);
      var _ := LinkEndChild(node, s, t);
      after := Shape(this, s.kids + [t]);
    }

    /** The attributes are set one by one; the walk over them is that of `Walked`. */
    method CopyAttributesTo(target: TiXmlNode)
      requires target != this
      modifies target`attributes
      ensures target.attributes == CopiedAttributes(Walked(attributes), old(target.attributes))
    {
      hide Assigned, CString, Remaining;
      var i, more := 0, |attributes| > 0;
      AllRemain(attributes, target.attributes);
      while more
        invariant i <= |attributes| && (more ==> i < |attributes|)
        invariant Remaining(attributes, i, more, target.attributes)
               == CopiedAttributes(Walked(attributes), old(target.attributes))
        decreases |attributes| - i, more
      {
        OneCopied(attributes, i, target.attributes);
        var attribute := attributes[i];
        target.attributes := Assigned(target.attributes, CString(attribute.name), CString(attribute.value));
        i := i + 1;
        more := i < |attributes| && !IsEmpty(attributes[i]);
      }
      NoneRemain(attributes, i, target.attributes);
    }

    /** One round of `Clone`: the child at `i` is copied, and the copy made a child of the clone. */
    method CloneChild(clone: TiXmlNode, ghost s: Shape, ghost c: Shape, ghost i: nat)
      returns (following: TiXmlNode?, ghost after: Shape, ghost added: set<TiXmlNode>)
      requires IsTree(s) && i < |s.kids| && s.kids[i].node == this
      requires IsTree(c) && c.node == clone && Nodes(c) !! Nodes(s)
      modifies Nodes(c)
      ensures following == At(KidNodes(s.kids), i + 1)
      ensures clone.value == old(clone.value) && clone.attributes == old(clone.attributes)
      ensures after.node == clone && IsTree(after) && Nodes(after) == Nodes(c) + added && fresh(added)
      ensures Views(after.kids) == old(Views(c.kids) + [Cut(View(s.kids[i]))])
      decreases s, 0
    {
      hide IsTree, Views, View, NodesOf, Nodes, KidNodes, Cut;
      KidTree(s, i);
      ViewsAt(s.kids);
      KidsIn(c);
      KidsIn(s);
      assert allocated(Nodes(c)) && allocated(Nodes(s));
      ghost var d;
      var copy;
      copy, d := Clone(s.kids[i]);
      StillTree(c);
      StillTree(s);
      KidsIn(d);
      added := Nodes(d);
      after := clone.Adopt(copy, c, d);
      following := next;
    }

    /** A copy of this node and all below it, made of new nodes; every string is copied up to its first NUL. */
    method Clone(ghost s: Shape) returns (clone: TiXmlNode, ghost c: Shape)
      requires IsTree(s) && s.node == this
      ensures fresh(Nodes(c)) && c.node == clone && IsTree(c) && View(c) == Cut(View(s)) && clone.kind == kind
      decreases s, 1
    {
      hide IsTree, Views, View, NodesOf, Nodes, KidNodes, CString, CopiedAttributes, Walked;
      ViewsAt(s.kids);
      KidsIn(s);
      FirstKid(s);
      assert allocated(Nodes(s));
      clone := new TiXmlNode(kind, CString(value), []);
      CopyAttributesTo(clone);
      c := Shape(clone, []);
      LoneTree(clone);
      ghost var views, i := old(Views(s.kids)), 0;
      var node := firstChild;
      while node != null
        invariant i <= |s.kids| && node == At(KidNodes(s.kids), i)
        invariant unchanged(Nodes(s))
        invariant fresh(Nodes(c)) && clone in Nodes(c) && c.node == clone && IsTree(c)
        invariant Views(c.kids) == CutAll(views[..i])
        invariant clone.kind == kind && clone.value == CString(value)
        invariant clone.attributes == CopiedAttributes(Walked(attributes), [])
        decreases |s.kids| - i
      {
        StillTree(s);
        ghost var added;
        node, c, added := node.CloneChild(clone, s, c, i);
        assert views[..i + 1] == views[..i] + [views[i]];
        i := i + 1;
      }
      assert views[..i] == views;
      StillTree(s);
      ViewIs(s);
      ViewIs(c);
    }

    method InsertBeforeChild(beforeThis: TiXmlNode?, addThis: TiXmlNode, ghost s: Shape, ghost a: Shape)
      returns (r: TiXmlNode?, ghost at: nat, ghost c: Shape)
      requires IsTree(s) && s.node == this && IsTree(a) && a.node == addThis
      requires beforeThis != null && beforeThis.parent == this ==> beforeThis in KidNodes(s.kids)
      modifies this`firstChild, KidNodes(s.kids)`next, KidNodes(s.kids)`prev
      ensures r == null <==> beforeThis == null || old(beforeThis.parent) != this || addThis.kind == Document
      ensures r == null ==> unchanged(this) && unchanged(KidNodes(s.kids))
      ensures r != null ==>
        && r == c.node && fresh(Nodes(c)) && at < |s.kids| && s.kids[at].node == beforeThis
        && IsTree(Shape(this, Splice(s.kids, at, at, c)))
        && Views(Splice(s.kids, at, at, c)) == Replaced(old(Views(s.kids)), at, at, Cut(old(View(a))))
    {
      r, at, c := null, 0, a;
      if beforeThis == null || beforeThis.parent != this {
        return;
      }
      if addThis.kind == Document {
        return;
      }
      hide IsTree, Views, View, NodesOf, Nodes, Splice, Cut;
      at := IndexOf(s.kids, beforeThis);
      assert allocated(Nodes(s)) && allocated(Nodes(a));
      r, c := addThis.Clone(a);
      StillTree(s);
      StillTree(a);
      SplicedViews(s.kids, at, at, c);
      PutBefore(this, beforeThis, r, s, c, at);
    }

    method InsertAfterChild(afterThis: TiXmlNode?, addThis: TiXmlNode, ghost s: Shape, ghost a: Shape)
      returns (r: TiXmlNode?, ghost at: nat, ghost c: Shape)
      requires IsTree(s) && s.node == this && IsTree(a) && a.node == addThis
      requires afterThis != null && afterThis.parent == this ==> afterThis in KidNodes(s.kids)
      modifies this`lastChild, KidNodes(s.kids)`next, KidNodes(s.kids)`prev
      ensures r == null <==> afterThis == null || old(afterThis.parent) != this || addThis.kind == Document
      ensures r == null ==> unchanged(this) && unchanged(KidNodes(s.kids))
      ensures r != null ==>
        && r == c.node && fresh(Nodes(c)) && at < |s.kids| && s.kids[at].node == afterThis
        && IsTree(Shape(this, Splice(s.kids, at + 1, at + 1, c)))
        && Views(Splice(s.kids, at + 1, at + 1, c)) == Replaced(old(Views(s.kids)), at + 1, at + 1, Cut(old(View(a))))
    {
      r, at, c := null, 0, a;
      if afterThis == null || afterThis.parent != this {
        return;
      }
      if addThis.kind == Document {
        return;
      }
      hide IsTree, Views, View, NodesOf, Nodes, Splice, Cut;
      at := IndexOf(s.kids, afterThis);
      assert allocated(Nodes(s)) && allocated(Nodes(a));
      r, c := addThis.Clone(a);
      StillTree(s);
      StillTree(a);
      SplicedViews(s.kids, at + 1, at + 1, c);
      PutAfter(this, afterThis, r, s, c, at);
    }

    method ReplaceChild(replaceThis: TiXmlNode?, withThis: TiXmlNode, ghost s: Shape, ghost a: Shape)
      returns (r: TiXmlNode?, ghost at: nat, ghost c: Shape)
      requires IsTree(s) && s.node == this && IsTree(a) && a.node == withThis
      requires replaceThis != null && replaceThis.parent == this ==> replaceThis in KidNodes(s.kids)
      modifies this`firstChild, this`lastChild, KidNodes(s.kids)`next, KidNodes(s.kids)`prev
      ensures r == null <==> replaceThis == null || old(replaceThis.parent) != this || withThis.kind == Document
      ensures r == null ==> unchanged(this) && unchanged(KidNodes(s.kids))
      ensures r != null ==>
        && r == c.node && fresh(Nodes(c)) && at < |s.kids| && s.kids[at].node == replaceThis
        && IsTree(Shape(this, Splice(s.kids, at, at + 1, c)))
        && Views(Splice(s.kids, at, at + 1, c)) == Replaced(old(Views(s.kids)), at, at + 1, Cut(old(View(a))))
    {
      r, at, c := null, 0, a;
      if replaceThis == null || replaceThis.parent != this {
        return;
      }
      if withThis.kind == Document {
        return;
      }
      hide IsTree, Views, View, NodesOf, Nodes, Splice, Cut;
      at := IndexOf(s.kids, replaceThis);
      assert allocated(Nodes(s)) && allocated(Nodes(a));
      r, c := withThis.Clone(a);
      StillTree(s);
      StillTree(a);
      SplicedViews(s.kids, at, at + 1, c);
      PutInstead(this, replaceThis, r, s, c, at);
    }

    method RemoveChild(removeThis: TiXmlNode?, ghost s: Shape) returns (removed: bool, ghost at: nat)
      requires IsTree(s) && s.node == this
      requires removeThis != null && removeThis.parent == this ==> removeThis in KidNodes(s.kids)
      modifies this`firstChild, this`lastChild, KidNodes(s.kids)`next, KidNodes(s.kids)`prev
      ensures removed <==> removeThis != null && old(removeThis.parent) == this
      ensures !removed ==> unchanged(this) && unchanged(KidNodes(s.kids))
      ensures removed ==>
        && at < |s.kids| && s.kids[at].node == removeThis
        && var after := s.kids[..at] + s.kids[at + 1..];
           IsTree(Shape(this, after)) && Views(after) == old(Views(s.kids))[..at] + old(Views(s.kids))[at + 1..]
    {
      at := 0;
      if removeThis == null {
        return false, at;
      }
      if removeThis.parent != this {
        return false, at;
      }
      at := IndexOf(s.kids, removeThis);
      RemovedViews(s.kids, at);
      PutAway(this, removeThis, s, at);
      return true, at;
    }
  }

  /** The pointers of a tree: down to the first and last child, along the children, and up. */
  lemma PointersOf(s: Shape)
    requires IsTree(s)
    ensures s.kids == [] ==> s.node.firstChild == null && s.node.lastChild == null
    ensures s.kids != [] ==>
      s.node.firstChild == s.kids[0].node && s.node.lastChild == s.kids[|s.kids| - 1].node
    ensures forall i :: 0 <= i < |s.kids| ==>
      && IsTree(s.kids[i]) && s.kids[i].node.parent == s.node
      && s.kids[i].node.prev == (if i == 0 then null else s.kids[i - 1].node)
      && s.kids[i].node.next == (if i == |s.kids| - 1 then null else s.kids[i + 1].node)
  {
    hide Separate, AllSeparate, NodesOf;
    forall i | 0 <= i < |s.kids|
      ensures IsTree(s.kids[i])
      ensures Neighbours(s.node, KidNodes(s.kids), i)
    {
      KidTree(s, i);
    }
  }

  // ----- parts of a tree

  lemma {:induction false} AllLinkedAt(kids: seq<Shape>)
    ensures AllLinked(kids) <==> forall i :: 0 <= i < |kids| ==> Linked(kids[i])
  {
    if kids != [] {
      AllLinkedAt(kids[1..]);
      assert forall i :: 0 < i < |kids| ==> kids[i] == kids[1..][i - 1];
      assert forall i :: 0 <= i < |kids[1..]| ==> kids[1..][i] == kids[i + 1];
    }
  }

  lemma {:induction false} NodesOfAppend(a: seq<Shape>, b: seq<Shape>)
    ensures NodesOf(a + b) == NodesOf(a) + NodesOf(b)
  {
    if a == [] {
      assert a + b == b;
    } else {
      assert (a + b)[1..] == a[1..] + b;
      NodesOfAppend(a[1..], b);
    }
  }

  lemma {:induction false} AllSeparateAppend(a: seq<Shape>, b: seq<Shape>)
    ensures AllSeparate(a + b) <==> AllSeparate(a) && AllSeparate(b) && NodesOf(a) !! NodesOf(b)
  {
    if a == [] {
      assert a + b == b;
    } else {
      assert (a + b)[1..] == a[1..] + b;
      AllSeparateAppend(a[1..], b);
      NodesOfAppend(a[1..], b);
    }
  }

  lemma {:induction false} ViewsAppend(a: seq<Shape>, b: seq<Shape>)
    ensures Views(a + b) == Views(a) + Views(b)
  {
    if a == [] {
      assert a + b == b;
    } else {
      assert (a + b)[1..] == a[1..] + b;
      ViewsAppend(a[1..], b);
    }
  }

  lemma {:induction false} ViewsAt(kids: seq<Shape>)
    ensures |Views(kids)| == |kids| && forall i :: 0 <= i < |kids| ==> Views(kids)[i] == View(kids[i])
  {
    if kids != [] {
      ViewsAt(kids[1..]);
      assert forall i :: 0 < i < |kids| ==> kids[i] == kids[1..][i - 1];
    }
  }

  lemma {:induction false} SeparateAt(kids: seq<Shape>, i: nat, j: nat)
    requires AllSeparate(kids) && i < |kids| && j < |kids|
    ensures Separate(kids[i])
    ensures i != j ==> Nodes(kids[i]) !! Nodes(kids[j])
  {
    if i > 0 && j > 0 {
      SeparateAt(kids[1..], i - 1, j - 1);
    } else {
      InNodesOf(kids[1..]);
      if i > 0 {
        SeparateAt(kids[1..], i - 1, i - 1);
        assert kids[i] == kids[1..][i - 1];
      } else if j > 0 {
        assert kids[j] == kids[1..][j - 1];
      }
    }
  }

  // ----- moving roots about

  function Roots(kids: seq<Shape>): set<TiXmlNode>
  {
    set i | 0 <= i < |kids| :: kids[i].node
  }

  /** At most the links to the parent and the neighbours have changed. */
  twostate predicate Moved(n: TiXmlNode)
    reads n
  {
    && n.firstChild == old(n.firstChild) && n.lastChild == old(n.lastChild)
    && n.value == old(n.value) && n.attributes == old(n.attributes)
  }

  twostate lemma TreeKept(s: Shape)
    requires old(Linked(s)) && Moved(s.node) && old(allocated(NodesOf(s.kids))) && unchanged(NodesOf(s.kids))
    ensures Linked(s) && View(s) == old(View(s))
  {
    InNodesOf(s.kids);
  }

  twostate lemma {:induction false} ListKept(kids: seq<Shape>)
    requires AllSeparate(kids) && old(AllLinked(kids))
    requires old(allocated(NodesOf(kids))) && unchanged(NodesOf(kids) - Roots(kids))
    requires forall i :: 0 <= i < |kids| ==> Moved(kids[i].node)
    ensures AllLinked(kids) && Views(kids) == old(Views(kids))
  {
    if kids != [] {
      InNodesOf(kids);
      InNodesOf(kids[1..]);
      TreeKept(kids[0]);
      ListKept(kids[1..]);
    }
  }

  lemma AllLinkedAppend(a: seq<Shape>, b: seq<Shape>)
    ensures AllLinked(a + b) <==> AllLinked(a) && AllLinked(b)
  {
    AllLinkedAt(a);
    AllLinkedAt(b);
    AllLinkedAt(a + b);
    assert forall i :: 0 <= i < |a| ==> (a + b)[i] == a[i];
    assert forall i :: 0 <= i < |b| ==> (a + b)[i + |a|] == b[i];
  }

  predicate Different(kids: seq<TiXmlNode>)
  {
    forall i, j :: 0 <= i < j < |kids| ==> kids[i] != kids[j]
  }

  // ----- the trees

  lemma {:induction false} SeparateAlways(kids: seq<Shape>)
    requires AllSeparate(kids)
    ensures Different(KidNodes(kids))
    ensures forall i :: 0 <= i < |kids| ==> Separate(kids[i]) && kids[i].node in NodesOf(kids)
  {
    InNodesOf(kids);
    forall i, j | 0 <= i < j < |kids| ensures kids[i].node != kids[j].node {
      SeparateAt(kids, i, j);
    }
    forall i | 0 <= i < |kids| ensures Separate(kids[i]) {
      SeparateAt(kids, i, i);
    }
  }

  /** Two lists of a tree's children and one more tree are as separate as they were together. */
  lemma Spliced(a: seq<Shape>, b: seq<Shape>, c: seq<Shape>, t: Shape)
    requires AllSeparate(a + b + c) && Separate(t) && Nodes(t) !! NodesOf(a + b + c)
    ensures AllSeparate(a + [t] + c) && AllSeparate(a + c)
    ensures NodesOf(a + [t] + c) == NodesOf(a) + Nodes(t) + NodesOf(c) && NodesOf(a + c) <= NodesOf(a + b + c)
    ensures NodesOf(a + [t] + c) <= NodesOf(a + b + c) + Nodes(t)
  {
    NodesOfAppend(a, b);
    NodesOfAppend(a + b, c);
    NodesOfAppend(a, c);
    NodesOfAppend(a, [t]);
    NodesOfAppend(a + [t], c);
    AllSeparateAppend(a, b);
    AllSeparateAppend(a + b, c);
    AllSeparateAppend(a, c);
    AllSeparateAppend(a, [t]);
    AllSeparateAppend(a + [t], c);
    assert NodesOf([t]) == Nodes(t) && AllSeparate([t]);
    hide NodesOf, AllSeparate, Nodes, Separate;
  }

  predicate AllIn(kids: seq<Shape>, all: seq<Shape>)
  {
    forall i :: 0 <= i < |kids| ==> kids[i] in all
  }

  twostate predicate OnlyRootsMoved(all: seq<Shape>)
    reads NodesOf(all)
  {
    InNodesOf(all);
    && old(allocated(NodesOf(all))) && unchanged(NodesOf(all) - Roots(all))
    && forall i :: 0 <= i < |all| ==> Moved(all[i].node)
  }

  /** The trees there are, and the list of children made of them. */
  datatype Edit = Edit(all: seq<Shape>, kids: seq<Shape>)

  twostate predicate OnlyRootsMovedIn(e: Edit)
    reads NodesOf(e.all)
  {
    AllSeparate(e.all) && old(AllLinked(e.all)) && OnlyRootsMoved(e.all)
    && AllSeparate(e.kids) && NodesOf(e.kids) <= NodesOf(e.all) && AllIn(e.kids, e.all)
  }

  lemma LinkedSome(all: seq<Shape>, kids: seq<Shape>)
    requires AllLinked(all) && AllIn(kids, all)
    ensures AllLinked(kids)
  {
    AllLinkedAt(all);
    AllLinkedAt(kids);
    hide Linked, AllLinked;
  }

  /** If only roots have moved, the trees in the new list are as they were. */
  twostate lemma AfterEdit(e: Edit)
    requires OnlyRootsMovedIn(e)
    ensures AllLinked(e.kids) && Views(e.kids) == old(Views(e.kids))
  {
    ListKept(e.all);
    LinkedSome(e.all, e.kids);
    ViewsSame(e);
  }

  twostate lemma ViewsSame(e: Edit)
    requires OnlyRootsMovedIn(e)
    ensures Views(e.kids) == old(Views(e.kids))
  {
    ListKept(e.all);
    OldViewsAt(e.all);
    OldViewsAt(e.kids);
    ViewsAt(e.all);
    ViewsAt(e.kids);
    forall i | 0 <= i < |e.kids| ensures Views(e.kids)[i] == old(Views(e.kids)[i]) {
      var j :| 0 <= j < |e.all| && e.all[j] == e.kids[i];
    }
  }

  lemma IsTreeMeans(p: TiXmlNode, kids: seq<Shape>)
    requires p !in NodesOf(kids) && AllSeparate(kids) && Lists(p, KidNodes(kids)) && AllLinked(kids)
    ensures IsTree(Shape(p, kids))
  {
  }

  twostate lemma {:induction false} OldViewsAt(kids: seq<Shape>)
    ensures old(|Views(kids)| == |kids|) && forall i :: 0 <= i < |kids| ==> old(Views(kids)[i] == View(kids[i]))
  {
    if kids != [] {
      OldViewsAt(kids[1..]);
      assert forall i :: 0 < i < |kids| ==> kids[i] == kids[1..][i - 1];
    }
  }

  /** The children with `t` in place of those from `i` to `j`. */
  function Splice(kids: seq<Shape>, i: nat, j: nat, t: Shape): seq<Shape>
    requires i <= j <= |kids|
  {
    kids[..i] + [t] + kids[j..]
  }

  /** Everything about trees, their separateness above all, that an insertion depends on. */
  ghost predicate Ready(s: Shape, t: Shape, after: seq<Shape>)
    reads NodesOf(s.kids + [t])
  {
    var all := s.kids + [t];
    && AllSeparate(all) && AllLinked(all) && s.node !in NodesOf(all)
    && AllSeparate(after) && NodesOf(after) <= NodesOf(all) && AllIn(after, all)
  }

  /** Nothing in these trees but their roots, and not the parent, is in the way of relinking. */
  ghost predicate Apart(p: TiXmlNode, node: TiXmlNode, kids: seq<TiXmlNode>, all: seq<Shape>)
  {
    && p !in NodesOf(all) && (forall i :: 0 <= i < |all| ==> all[i].node != p)
    && node in Roots(all) && forall k :: k in kids ==> k in Roots(all)
  }

  lemma Prepared(s: Shape, t: Shape, i: nat, j: nat)
    requires IsTree(s) && IsTree(t) && Nodes(s) !! Nodes(t) && i <= j <= |s.kids|
    ensures Ready(s, t, Splice(s.kids, i, j, t))
    ensures KidNodes(Splice(s.kids, i, j, t)) == KidNodes(s.kids)[..i] + [t.node] + KidNodes(s.kids)[j..]
    ensures Different(KidNodes(s.kids)) && t.node !in KidNodes(s.kids)
    ensures Apart(s.node, t.node, KidNodes(s.kids), s.kids + [t])
  {
    LinkedTogether(s, t);
    SeparateTogether(s, t, i, j);
    AllInSplice(s.kids, i, j, t);
    SpliceNodes(s.kids, i, j, t);
    RootsAre(s.kids, t);
    InNodesOf(s.kids + [t]);
    hide Linked, AllLinked, Separate, AllSeparate, NodesOf, AllIn, Splice, KidNodes, Different;
  }

  lemma LinkedTogether(s: Shape, t: Shape)
    requires Linked(s) && Linked(t)
    ensures AllLinked(s.kids + [t])
  {
    AllLinkedAppend(s.kids, [t]);
    assert AllLinked([t]);
  }

  lemma OneMoreSeparate(kids: seq<Shape>, t: Shape)
    requires AllSeparate(kids) && Separate(t) && Nodes(t) !! NodesOf(kids)
    ensures AllSeparate(kids + [t]) && NodesOf(kids + [t]) == NodesOf(kids) + Nodes(t)
  {
    NodesOfAppend(kids, [t]);
    AllSeparateAppend(kids, [t]);
    assert NodesOf([t]) == Nodes(t) && AllSeparate([t]);
    hide NodesOf, AllSeparate, Nodes, Separate;
  }

  lemma SpliceSeparate(kids: seq<Shape>, i: nat, j: nat, t: Shape)
    requires AllSeparate(kids) && Separate(t) && Nodes(t) !! NodesOf(kids) && i <= j <= |kids|
    ensures AllSeparate(Splice(kids, i, j, t)) && NodesOf(Splice(kids, i, j, t)) <= NodesOf(kids) + Nodes(t)
  {
    hide NodesOf, AllSeparate, Nodes, Separate;
    assert kids[..i] + kids[i..j] + kids[j..] == kids;
    Spliced(kids[..i], kids[i..j], kids[j..], t);
  }

  lemma SeparateParts(s: Shape, t: Shape)
    requires Separate(s) && Separate(t) && Nodes(s) !! Nodes(t)
    ensures AllSeparate(s.kids) && Nodes(t) !! NodesOf(s.kids) && s.node !in NodesOf(s.kids) && s.node !in Nodes(t)
    ensures t.node !in NodesOf(s.kids)
  {
    hide NodesOf, AllSeparate;
  }

  lemma SeparateTogether(s: Shape, t: Shape, i: nat, j: nat)
    requires Separate(s) && Separate(t) && Nodes(s) !! Nodes(t) && i <= j <= |s.kids|
    ensures var all, after := s.kids + [t], Splice(s.kids, i, j, t);
      AllSeparate(all) && s.node !in NodesOf(all) && AllSeparate(after) && NodesOf(after) <= NodesOf(all)
    ensures Different(KidNodes(s.kids)) && t.node !in KidNodes(s.kids)
  {
    hide NodesOf, AllSeparate, Nodes, Separate, Splice, Different;
    SeparateParts(s, t);
    SeparateAlways(s.kids);
    OneMoreSeparate(s.kids, t);
    SpliceSeparate(s.kids, i, j, t);
  }

  lemma SpliceNodes(kids: seq<Shape>, i: nat, j: nat, t: Shape)
    requires i <= j <= |kids|
    ensures KidNodes(Splice(kids, i, j, t)) == KidNodes(kids)[..i] + [t.node] + KidNodes(kids)[j..]
  {
  }

  lemma AllInSplice(kids: seq<Shape>, i: nat, j: nat, t: Shape)
    requires i <= j <= |kids|
    ensures AllIn(Splice(kids, i, j, t), kids + [t])
  {
    var all, after := kids + [t], Splice(kids, i, j, t);
    forall k | 0 <= k < |after| ensures after[k] in all {
      assert after[k] == all[if k < i then k else if k == i then |kids| else k - i - 1 + j];
    }
  }

  lemma RootsAre(kids: seq<Shape>, t: Shape)
    ensures t.node in Roots(kids + [t]) && forall k :: k in KidNodes(kids) ==> k in Roots(kids + [t])
  {
    var all := kids + [t];
    assert all[|kids|] == t;
    forall k | k in KidNodes(kids) ensures k in Roots(all) {
      var i :| 0 <= i < |kids| && KidNodes(kids)[i] == k;
      assert all[i].node == k;
    }
  }

  // ----- the links alone

  /** A node not in the list goes to the end of it. */
  method LinkLast(p: TiXmlNode, node: TiXmlNode, ghost kids: seq<TiXmlNode>, ghost all: seq<Shape>)
    requires Lists(p, kids) && Different(kids) && node !in kids && node.kind != Document
    requires Apart(p, node, kids, all)
    modifies p`firstChild, p`lastChild, node`parent, node`prev, node`next, kids`next
    ensures Lists(p, kids + [node]) && OnlyRootsMoved(all)
  {
    hide NodesOf, Roots;
    ghost var after := kids + [node];
    node.parent := p;
    node.prev := p.lastChild;
    node.next := null;
    if p.lastChild != null {
      p.lastChild.next := node;
    } else {
      p.firstChild := node;
    }
    p.lastChild := node;
    assert old(allocated(NodesOf(all)));
    assert unchanged(NodesOf(all) - Roots(all));
    forall i | 0 <= i < |after| ensures Neighbours(p, after, i) {
      if i < |kids| {
        assert old(Neighbours(p, kids, i));
      }
    }
  }

  method LinkBefore(p: TiXmlNode, beforeThis: TiXmlNode, node: TiXmlNode, ghost kids: seq<TiXmlNode>, ghost at: nat,
                    ghost all: seq<Shape>)
    requires Lists(p, kids) && Different(kids) && node !in kids
    requires node.kind != Document && at < |kids| && kids[at] == beforeThis
    requires Apart(p, node, kids, all)
    modifies p`firstChild, node`parent, node`prev, node`next, kids`next, kids`prev
    ensures Lists(p, kids[..at] + [node] + kids[at..]) && OnlyRootsMoved(all)
  {
    hide NodesOf, Roots;
    ghost var after := kids[..at] + [node] + kids[at..];
    assert Neighbours(p, kids, at);
    node.parent := p;
    node.next := beforeThis;
    node.prev := beforeThis.prev;
    if beforeThis.prev != null {
      beforeThis.prev.next := node;
    } else {
      p.firstChild := node;
    }
    beforeThis.prev := node;
    assert old(allocated(NodesOf(all)));
    assert unchanged(NodesOf(all) - Roots(all));
    forall i | 0 <= i < |after| ensures Neighbours(p, after, i) {
      if i < at {
        assert old(Neighbours(p, kids, i));
      } else if i > at {
        assert old(Neighbours(p, kids, i - 1));
      }
    }
  }

  method LinkAfter(p: TiXmlNode, afterThis: TiXmlNode, node: TiXmlNode, ghost kids: seq<TiXmlNode>, ghost at: nat,
                   ghost all: seq<Shape>)
    requires Lists(p, kids) && Different(kids) && node !in kids
    requires node.kind != Document && at < |kids| && kids[at] == afterThis
    requires Apart(p, node, kids, all)
    modifies p`lastChild, node`parent, node`prev, node`next, kids`next, kids`prev
    ensures Lists(p, kids[..at + 1] + [node] + kids[at + 1..]) && OnlyRootsMoved(all)
  {
    hide NodesOf, Roots;
    ghost var after := kids[..at + 1] + [node] + kids[at + 1..];
    assert Neighbours(p, kids, at);
    node.parent := p;
    node.prev := afterThis;
    node.next := afterThis.next;
    if afterThis.next != null {
      afterThis.next.prev := node;
    } else {
      p.lastChild := node;
    }
    afterThis.next := node;
    assert old(allocated(NodesOf(all)));
    assert unchanged(NodesOf(all) - Roots(all));
    forall i | 0 <= i < |after| ensures Neighbours(p, after, i) {
      if i <= at {
        assert old(Neighbours(p, kids, i));
      } else if i > at + 1 {
        assert old(Neighbours(p, kids, i - 1));
      }
    }
  }

  method LinkInstead(p: TiXmlNode, replaceThis: TiXmlNode, node: TiXmlNode, ghost kids: seq<TiXmlNode>, ghost at: nat,
                     ghost all: seq<Shape>)
    requires Lists(p, kids) && Different(kids) && node !in kids
    requires node.kind != Document && at < |kids| && kids[at] == replaceThis
    requires Apart(p, node, kids, all)
    modifies p`firstChild, p`lastChild, node`parent, node`prev, node`next, kids`next, kids`prev
    ensures Lists(p, kids[at := node]) && OnlyRootsMoved(all)
  {
    hide NodesOf, Roots;
    ghost var after := kids[at := node];
    assert Neighbours(p, kids, at);
    node.next := replaceThis.next;
    node.prev := replaceThis.prev;
    if replaceThis.next != null {
      replaceThis.next.prev := node;
    } else {
      p.lastChild := node;
    }
    if replaceThis.prev != null {
      replaceThis.prev.next := node;
    } else {
      p.firstChild := node;
    }
    node.parent := p;
    assert old(allocated(NodesOf(all)));
    assert unchanged(NodesOf(all) - Roots(all));
    forall i | 0 <= i < |after| ensures Neighbours(p, after, i) {
      assert old(Neighbours(p, kids, i));
      if i == at {
        assert after[i] == node;
      } else if i == at - 1 || i == at + 1 {
        assert after[i] == kids[i];
      } else {
        assert after[i] == kids[i] && At(after, i - 1) == At(kids, i - 1) && At(after, i + 1) == At(kids, i + 1);
      }
    }
  }

  method Unlink(p: TiXmlNode, removeThis: TiXmlNode, ghost kids: seq<TiXmlNode>, ghost at: nat, ghost all: seq<Shape>)
    requires Lists(p, kids) && Different(kids) && at < |kids| && kids[at] == removeThis
    requires Apart(p, removeThis, kids, all)
    modifies p`firstChild, p`lastChild, kids`next, kids`prev
    ensures Lists(p, kids[..at] + kids[at + 1..]) && OnlyRootsMoved(all)
  {
    hide NodesOf, Roots;
    ghost var after := kids[..at] + kids[at + 1..];
    assert Neighbours(p, kids, at);
    if removeThis.next != null {
      removeThis.next.prev := removeThis.prev;
    } else {
      p.lastChild := removeThis.prev;
    }
    if removeThis.prev != null {
      removeThis.prev.next := removeThis.next;
    } else {
      p.firstChild := removeThis.next;
    }
    assert old(allocated(NodesOf(all)));
    assert unchanged(NodesOf(all) - Roots(all));
    forall i | 0 <= i < |after| ensures Neighbours(p, after, i) {
      if i < at {
        assert old(Neighbours(p, kids, i));
      } else {
        assert old(Neighbours(p, kids, i + 1));
      }
    }
  }

  datatype Insertion = Insertion(s: Shape, t: Shape, kids: seq<Shape>)

  /** Once the links are those of the new list, it is a tree, and the children are what they were. */
  twostate lemma Inserted(x: Insertion)
    requires old(Ready(x.s, x.t, x.kids)) && OnlyRootsMoved(x.s.kids + [x.t])
    requires Lists(x.s.node, KidNodes(x.kids))
    ensures IsTree(Shape(x.s.node, x.kids)) && Views(x.kids) == old(Views(x.kids))
  {
    AfterEdit(Edit(x.s.kids + [x.t], x.kids));
    IsTreeMeans(x.s.node, x.kids);
  }

  method PutBefore(p: TiXmlNode, beforeThis: TiXmlNode, node: TiXmlNode, ghost s: Shape, ghost t: Shape, ghost at: nat)
    requires IsTree(s) && IsTree(t) && s.node == p && t.node == node && Nodes(s) !! Nodes(t) && node.kind != Document
    requires at < |s.kids| && s.kids[at].node == beforeThis
    modifies p`firstChild, node`parent, node`prev, node`next, KidNodes(s.kids)`next, KidNodes(s.kids)`prev
    ensures IsTree(Shape(p, Splice(s.kids, at, at, t)))
    ensures Views(Splice(s.kids, at, at, t)) == old(Views(Splice(s.kids, at, at, t)))
  {
    hide AllLinked, Separate, AllSeparate, NodesOf, AllIn, Views, Lists, Different, Roots, Ready, OnlyRootsMoved, Apart;
    Prepared(s, t, at, at);
    LinkBefore(p, beforeThis, node, KidNodes(s.kids), at, s.kids + [t]);
    Inserted(Insertion(s, t, Splice(s.kids, at, at, t)));
  }

  method PutAfter(p: TiXmlNode, afterThis: TiXmlNode, node: TiXmlNode, ghost s: Shape, ghost t: Shape, ghost at: nat)
    requires IsTree(s) && IsTree(t) && s.node == p && t.node == node && Nodes(s) !! Nodes(t) && node.kind != Document
    requires at < |s.kids| && s.kids[at].node == afterThis
    modifies p`lastChild, node`parent, node`prev, node`next, KidNodes(s.kids)`next, KidNodes(s.kids)`prev
    ensures var after := Splice(s.kids, at + 1, at + 1, t); IsTree(Shape(p, after)) && Views(after) == old(Views(after))
  {
    hide AllLinked, Separate, AllSeparate, NodesOf, AllIn, Views, Lists, Different, Roots, Ready, OnlyRootsMoved, Apart;
    Prepared(s, t, at + 1, at + 1);
    LinkAfter(p, afterThis, node, KidNodes(s.kids), at, s.kids + [t]);
    Inserted(Insertion(s, t, Splice(s.kids, at + 1, at + 1, t)));
  }

  method PutInstead(p: TiXmlNode, replaceThis: TiXmlNode, node: TiXmlNode, ghost s: Shape, ghost t: Shape,
                    ghost at: nat)
    requires IsTree(s) && IsTree(t) && s.node == p && t.node == node && Nodes(s) !! Nodes(t) && node.kind != Document
    requires at < |s.kids| && s.kids[at].node == replaceThis
    modifies p`firstChild, p`lastChild, node`parent, node`prev, node`next, KidNodes(s.kids)`next, KidNodes(s.kids)`prev
    ensures var after := Splice(s.kids, at, at + 1, t); IsTree(Shape(p, after)) && Views(after) == old(Views(after))
  {
    hide AllLinked, Separate, AllSeparate, NodesOf, AllIn, Views, Lists, Different, Roots, Ready, OnlyRootsMoved, Apart;
    Prepared(s, t, at, at + 1);
    assert KidNodes(s.kids)[at := node] == KidNodes(s.kids)[..at] + [node] + KidNodes(s.kids)[at + 1..];
    LinkInstead(p, replaceThis, node, KidNodes(s.kids), at, s.kids + [t]);
    Inserted(Insertion(s, t, Splice(s.kids, at, at + 1, t)));
  }

  lemma PreparedRemoval(s: Shape, at: nat)
    requires IsTree(s) && at < |s.kids|
    ensures var after := s.kids[..at] + s.kids[at + 1..];
      && AllSeparate(s.kids) && AllLinked(s.kids)
      && AllSeparate(after) && NodesOf(after) <= NodesOf(s.kids) && AllIn(after, s.kids)
      && KidNodes(after) == KidNodes(s.kids)[..at] + KidNodes(s.kids)[at + 1..]
    ensures Different(KidNodes(s.kids)) && s.node !in NodesOf(s.kids)
    ensures Apart(s.node, s.kids[at].node, KidNodes(s.kids), s.kids)
  {
    hide NodesOf, AllSeparate, AllLinked, Different, Lists, Roots;
    SeparateAlways(s.kids);
    RemovalSeparate(s.kids, at);
    RootsOf(s.kids);
  }

  lemma RootsOf(kids: seq<Shape>)
    ensures forall i :: 0 <= i < |kids| ==> kids[i].node in Roots(kids)
  {
  }

  lemma RemovalSeparate(kids: seq<Shape>, at: nat)
    requires AllSeparate(kids) && at < |kids|
    ensures AllSeparate(kids[..at] + kids[at + 1..]) && NodesOf(kids[..at] + kids[at + 1..]) <= NodesOf(kids)
  {
    hide NodesOf, AllSeparate;
    var a, b, c := kids[..at], [kids[at]], kids[at + 1..];
    assert a + b + c == kids;
    NodesOfAppend(a, b);
    NodesOfAppend(a + b, c);
    NodesOfAppend(a, c);
    AllSeparateAppend(a, b);
    AllSeparateAppend(a + b, c);
    AllSeparateAppend(a, c);
  }

  // ----- copies

  lemma LoneTree(n: TiXmlNode)
    requires n.firstChild == null && n.lastChild == null
    ensures IsTree(Shape(n, [])) && Nodes(Shape(n, [])) == {n} && Views([]) == []
  {
  }

  lemma KidsIn(s: Shape)
    ensures s.node in Nodes(s) && forall i :: 0 <= i < |KidNodes(s.kids)| ==> KidNodes(s.kids)[i] in Nodes(s)
  {
    InNodesOf(s.kids);
  }

  twostate lemma StillTree(s: Shape)
    requires old(IsTree(s)) && old(allocated(Nodes(s))) && unchanged(Nodes(s))
    ensures IsTree(s) && View(s) == old(View(s)) && Views(s.kids) == old(Views(s.kids)) && |Views(s.kids)| == |s.kids|
    ensures forall i :: 0 <= i < |s.kids| ==> View(s.kids[i]) == Views(s.kids)[i]
  {
    ViewsAt(s.kids);
  }

  lemma ViewIs(s: Shape)
    ensures View(s) == Content(s.node.kind, s.node.value, s.node.attributes, Views(s.kids))
  {
  }

  lemma FirstKid(s: Shape)
    requires IsTree(s)
    ensures s.node.firstChild == At(KidNodes(s.kids), 0) && |KidNodes(s.kids)| == |s.kids|
  {
  }

  lemma KidTree(s: Shape, i: nat)
    requires IsTree(s) && i < |s.kids|
    ensures IsTree(s.kids[i]) && s.kids[i].node.next == At(KidNodes(s.kids), i + 1) && s.kids[i].node.kind != Document
    ensures s.kids[i].node in Nodes(s) && |KidNodes(s.kids)| == |s.kids|
  {
    AllLinkedAt(s.kids);
    SeparateAlways(s.kids);
    InNodesOf(s.kids);
    assert Neighbours(s.node, KidNodes(s.kids), i);
  }

  lemma ViewsSnoc(kids: seq<Shape>, t: Shape)
    ensures Views(kids + [t]) == Views(kids) + [View(t)]
  {
    ViewsAppend(kids, [t]);
    assert Views([t]) == [View(t)];
  }

  lemma NodesSnoc(s: Shape, t: Shape)
    ensures Nodes(Shape(s.node, s.kids + [t])) == Nodes(s) + Nodes(t)
  {
    NodesOfAppend(s.kids, [t]);
    assert NodesOf([t]) == Nodes(t);
  }

  // ----- what a copy loses

  predicate IsWhole(a: Attribute) { '\0' !in a.name && '\0' !in a.value }

  /** No NUL, no name twice, and after the first no attribute that looks like the end of the ring. */
  predicate WholeAttributes(attrs: seq<Attribute>)
  {
    && (forall i :: 0 <= i < |attrs| ==> IsWhole(attrs[i]))
    && OneOfEachName(attrs)
    && (forall i :: 1 <= i < |attrs| ==> attrs[i].name != "" || attrs[i].value != "")
  }

  predicate Whole(v: Content)
    decreases v
  {
    '\0' !in v.value && WholeAttributes(v.attributes) && AllWhole(v.kids)
  }

  predicate AllWhole(views: seq<Content>)
    decreases views
  {
    views == [] || (Whole(views[0]) && AllWhole(views[1..]))
  }

  /** A copy is like the original exactly if there is nothing in it that cuts the copy short. */
  lemma {:induction false} CutNothingIff(v: Content)
    ensures Cut(v) == v <==> Whole(v)
    decreases v
  {
    CStringWhole(v.value);
    CopiedIff(v.attributes);
    CutAllNothingIff(v.kids);
    hide CString, CopiedAttributes, Walked, WholeAttributes;
  }

  lemma {:induction false} CutAllNothingIff(views: seq<Content>)
    ensures CutAll(views) == views <==> AllWhole(views)
    decreases views
  {
    if views != [] {
      CutNothingIff(views[0]);
      CutAllNothingIff(views[1..]);
      SameIff(views[0], views[1..], Cut(views[0]), CutAll(views[1..]));
      hide Cut, Whole;
      assert views == [views[0]] + views[1..];
    }
  }

  lemma SameIff(x: Content, xs: seq<Content>, y: Content, ys: seq<Content>)
    ensures [y] + ys == [x] + xs <==> y == x && ys == xs
  {
    assert [y] + ys == [x] + xs ==> ([y] + ys)[0] == ([x] + xs)[0] && ([y] + ys)[1..] == ([x] + xs)[1..];
  }

  lemma CopiedIff(attrs: seq<Attribute>)
    ensures CopiedAttributes(Walked(attrs), []) == attrs <==> WholeAttributes(attrs)
  {
    hide CopiedAttributes, UntilEmpty;
    CopiedKeeps(Walked(attrs), []);
    if attrs != [] {
      UntilEmptyIff(attrs[1..]);
      assert attrs == [attrs[0]] + attrs[1..];
      if WholeAttributes(attrs) {
        assert forall i :: 0 <= i < |attrs[1..]| ==> !IsEmpty(attrs[1..][i]);
        CopiedWhole(attrs, []);
      }
    } else {
      CopiedWhole([], []);
    }
  }

  lemma {:induction false} UntilEmptyIff(attrs: seq<Attribute>)
    ensures |UntilEmpty(attrs)| <= |attrs|
    ensures |UntilEmpty(attrs)| == |attrs| <==> forall i :: 0 <= i < |attrs| ==> !IsEmpty(attrs[i])
    ensures |UntilEmpty(attrs)| == |attrs| ==> UntilEmpty(attrs) == attrs
  {
    if attrs != [] {
      UntilEmptyIff(attrs[1..]);
      assert attrs == [attrs[0]] + attrs[1..];
      if |UntilEmpty(attrs)| == |attrs| {
        assert forall i :: 0 < i < |attrs| ==> attrs[i] == attrs[1..][i - 1];
      } else if !IsEmpty(attrs[0]) {
        var i :| 0 <= i < |attrs[1..]| && IsEmpty(attrs[1..][i]);
        assert IsEmpty(attrs[i + 1]);
      }
    }
  }

  /** The attributes of a copy. */
  predicate Clean(attrs: seq<Attribute>)
  {
    (forall i :: 0 <= i < |attrs| ==> IsWhole(attrs[i])) && OneOfEachName(attrs)
  }

  lemma {:induction false} AssignedKeeps(attrs: seq<Attribute>, name: string, value: string)
    requires Clean(attrs) && IsWhole(Attribute(name, value))
    ensures var r := Assigned(attrs, name, value);
      Clean(r) && |r| <= |attrs| + 1 && forall i :: 0 <= i < |r| ==> r[i].name == name || Holds(attrs, r[i].name)
  {
    if attrs != [] && attrs[0].name != name {
      AssignedKeeps(attrs[1..], name, value);
      AssignedFirst(attrs, name, value);
    } else if attrs != [] {
      assert forall i :: 0 < i < |attrs| ==> Holds(attrs, attrs[i].name);
    }
  }

  lemma AssignedFirst(attrs: seq<Attribute>, name: string, value: string)
    requires Clean(attrs) && attrs != [] && attrs[0].name != name
    requires var r := Assigned(attrs[1..], name, value);
      Clean(r) && forall i :: 0 <= i < |r| ==> r[i].name == name || Holds(attrs[1..], r[i].name)
    ensures var r := Assigned(attrs, name, value);
      Clean(r) && forall i :: 0 <= i < |r| ==> r[i].name == name || Holds(attrs, r[i].name)
  {
    var q := Assigned(attrs[1..], name, value);
    assert Assigned(attrs, name, value) == [attrs[0]] + q;
    hide Assigned, Holds;
    forall i | 0 <= i < |q| ensures q[i].name != attrs[0].name && (q[i].name == name || Holds(attrs, q[i].name)) {
      HoldsLater(attrs, q[i].name);
    }
    CleanCons(attrs[0], q);
    HoldsFirst(attrs);
  }

  lemma HoldsFirst(attrs: seq<Attribute>)
    requires attrs != []
    ensures Holds(attrs, attrs[0].name)
  {
  }

  lemma HoldsLater(attrs: seq<Attribute>, name: string)
    requires attrs != [] && OneOfEachName(attrs)
    ensures Holds(attrs[1..], name) ==> Holds(attrs, name) && name != attrs[0].name
  {
    if Holds(attrs[1..], name) {
      var j :| 0 <= j < |attrs[1..]| && attrs[1..][j].name == name;
      assert attrs[j + 1].name == name;
    }
  }

  lemma CleanCons(a: Attribute, attrs: seq<Attribute>)
    requires Clean(attrs) && IsWhole(a) && forall i :: 0 <= i < |attrs| ==> attrs[i].name != a.name
    ensures Clean([a] + attrs)
  {
  }

  lemma {:induction false} CopiedKeeps(attrs: seq<Attribute>, copied: seq<Attribute>)
    requires Clean(copied)
    ensures Clean(CopiedAttributes(attrs, copied)) && |CopiedAttributes(attrs, copied)| <= |attrs| + |copied|
  {
    if attrs != [] {
      hide Clean, Assigned;
      AssignedKeeps(copied, CString(attrs[0].name), CString(attrs[0].value));
      CopiedKeeps(attrs[1..], Assigned(copied, CString(attrs[0].name), CString(attrs[0].value)));
    }
  }

  lemma {:induction false} AssignedNew(attrs: seq<Attribute>, name: string, value: string)
    requires forall i :: 0 <= i < |attrs| ==> attrs[i].name != name
    ensures Assigned(attrs, name, value) == attrs + [Attribute(name, value)]
  {
    if attrs != [] {
      AssignedNew(attrs[1..], name, value);
    }
  }

  lemma {:induction false} CopiedWhole(attrs: seq<Attribute>, copied: seq<Attribute>)
    requires Clean(copied + attrs)
    ensures CopiedAttributes(attrs, copied) == copied + attrs
  {
    if attrs == [] {
      assert copied + attrs == copied;
    } else {
      var a := attrs[0];
      assert (copied + attrs)[|copied|] == a;
      assert forall i :: 0 <= i < |copied| ==> (copied + attrs)[i] == copied[i];
      CStringWhole(a.name);
      CStringWhole(a.value);
      AssignedNew(copied, a.name, a.value);
      assert copied + attrs == copied + [a] + attrs[1..];
      CopiedWhole(attrs[1..], copied + [a]);
    }
  }

  /** A text with a NUL, which the parser makes of a reference to it, loses the rest in a copy. */
  lemma NulCutsText()
    ensures Cut(Content(TextNode, "x\0y", [], [])) == Content(TextNode, "x", [], [])
  {
    CStringAppend("x", "\0y");
    assert "x" + "\0y" == "x\0y";
  }

  /** An attribute without name and value ends the copying of those after it, unless it is the first. */
  lemma EmptyEndsAttributes(a: Attribute, b: Attribute)
    requires Clean([a, b]) && (b.name != "" || b.value != "")
    ensures CopiedAttributes(Walked([a, Attribute("", ""), b]), []) == [a]
    ensures a.name != "" && b.name != "" ==>
      CopiedAttributes(Walked([Attribute("", ""), a, b]), []) == [Attribute("", ""), a, b]
  {
    var empty := Attribute("", "");
    UntilEmptyIff([a, b]);
    assert [a, empty, b][1..] == [empty, b] && [empty, a, b][1..] == [a, b];
    hide CopiedAttributes;
    CopiedWhole([a], []);
    if a.name != "" && b.name != "" {
      CopiedWhole([empty, a, b], []);
    }
  }

  // ----- edits of the contents

  function Replaced(views: seq<Content>, i: nat, j: nat, view: Content): seq<Content>
    requires i <= j <= |views|
  {
    views[..i] + [view] + views[j..]
  }

  lemma SplicedViews(kids: seq<Shape>, i: nat, j: nat, t: Shape)
    requires i <= j <= |kids|
    ensures |Views(kids)| == |kids| && Views(Splice(kids, i, j, t)) == Replaced(Views(kids), i, j, View(t))
  {
    ViewsAt(kids);
    ViewsAt(Splice(kids, i, j, t));
  }

  lemma RemovedViews(kids: seq<Shape>, at: nat)
    requires at < |kids|
    ensures |Views(kids)| == |kids| && Views(kids[..at] + kids[at + 1..]) == Views(kids)[..at] + Views(kids)[at + 1..]
  {
    ViewsAt(kids);
    ViewsAt(kids[..at] + kids[at + 1..]);
  }

  ghost function IndexOf(kids: seq<Shape>, node: TiXmlNode): (i: nat)
    requires node in KidNodes(kids)
    ensures i < |kids| && kids[i].node == node
  {
    var i :| 0 <= i < |kids| && kids[i].node == node;
    i
  }

  method PutAway(p: TiXmlNode, removeThis: TiXmlNode, ghost s: Shape, ghost at: nat)
    requires IsTree(s) && s.node == p && at < |s.kids| && s.kids[at].node == removeThis
    modifies p`firstChild, p`lastChild, KidNodes(s.kids)`next, KidNodes(s.kids)`prev
    ensures var after := s.kids[..at] + s.kids[at + 1..]; IsTree(Shape(p, after)) && Views(after) == old(Views(after))
  {
    hide AllLinked, Separate, AllSeparate, NodesOf, AllIn, Views, Lists, Different, Roots, Apart;
    ghost var after := s.kids[..at] + s.kids[at + 1..];
    PreparedRemoval(s, at);
    Unlink(p, removeThis, KidNodes(s.kids), at, s.kids);
    AfterEdit(Edit(s.kids, after));
    NotAmong(p, s.kids, after);
    IsTreeMeans(p, after);
  }

  lemma NotAmong(p: TiXmlNode, all: seq<Shape>, kids: seq<Shape>)
    requires p !in NodesOf(all) && NodesOf(kids) <= NodesOf(all)
    ensures p !in NodesOf(kids)
  {
  }
}
