/** Copies of nodes, with everything below them. */
module DomClone {
  import opened DomShape
  import opened Dom
  import opened DomTrees
  import opened XmlSyntax
  import RoundTrip

  // ---------- one node ----------

  /** XMLElement::SetAttribute: an attribute of that name gets the value, or a new one is appended. */
  function SetAttribute(attrs: seq<Attr>, name: string, value: string): seq<Attr> {
    if attrs == [] then [Attr(name, value)]
    else if attrs[0].name == name then [Attr(name, value)] + attrs[1..]
    else [attrs[0]] + SetAttribute(attrs[1..], name, value)
  }

  lemma {:induction false} SetNewAttribute(attrs: seq<Attr>, name: string, value: string)
    requires forall i :: 0 <= i < |attrs| ==> attrs[i].name != name
    ensures SetAttribute(attrs, name, value) == attrs + [Attr(name, value)]
  {
    if attrs != [] {
      SetNewAttribute(attrs[1..], name, value);
      assert attrs == [attrs[0]] + attrs[1..];
    }
  }

  /** The copies of a list of attributes with different names are that list. */
  method CopyAttributes(attrs: seq<Attr>) returns (copy: seq<Attr>)
    requires RoundTrip.DistinctNames(attrs)
    ensures copy == attrs
  {
    copy := [];
    for i := 0 to |attrs|
      invariant copy == attrs[..i]
    {
      SetNewAttribute(copy, attrs[i].name, attrs[i].value);
      copy := SetAttribute(copy, attrs[i].name, attrs[i].value);
    }
  }

  /** ShallowClone: the node without its children. */
  method ShallowClone(payload: Payload, target: XMLDocument) returns (clone: XMLNode)
    requires target.Valid() && !payload.DocumentNode?
    requires payload.ElementNode? ==> RoundTrip.DistinctNames(payload.attrs)
    modifies target`unlinked, target`untracked, target`waiting, target`currentAllocs, target`live, target`rank
    ensures target.Valid() && fresh(clone) && clone.payload == payload && clone.document == target.id
    ensures target.live == old(target.live) + {clone} && clone.kids == [] && clone.parent == null
    ensures target.rank == old(target.rank)[clone := 0]
    ensures Whole(old(ShapeOf(target.live))) && ShapeOf(target.live) == WithNode(old(ShapeOf(target.live)), clone)
  {
    hide Forest, ShapeOf, WithNode;
    var p := payload;
    if payload.ElementNode? {
      var attrs := CopyAttributes(payload.attrs);
      p := ElementNode(payload.name, attrs);
    }
    clone := target.CreateUnlinkedNode(p);
  }

  // ---------- nodes with all that is below them ----------

  /** What can be cloned: attribute names are different, and a document is nobody's child. */
  ghost predicate Cloneable(s: Shape) {
    && Whole(s)
    && forall m :: m in s.nodes ==> (m.payload.ElementNode? ==> RoundTrip.DistinctNames(m.payload.attrs))
                                    && (m.payload.DocumentNode? ==> s.parent[m] == null)
  }

  /** The children of a node by their links. */
  lemma Walk(L: set<XMLNode>, rank: map<XMLNode, nat>, n: XMLNode, i: nat)
    requires Forest(ShapeOf(L), rank) && n in L && Cloneable(ShapeOf(L))
    ensures var s := ShapeOf(L);
            && Whole(s) && s.nodes == L && n.kids == s.kids[n] && n.firstChild == (if n.kids == [] then null else n.kids[0])
            && (i < |n.kids| ==>
                  && n.kids[i] in L && n.kids[i].next == Behind(n.kids, i) && !n.kids[i].payload.DocumentNode?
                  && Height(rank, n.kids[i]) < Height(rank, n))
  {
    hide Hangs, NoneTwice, ShapeOf, Ranked;
    FieldsOf(L, n);
    ChainOf(ShapeOf(L), rank, n);
    KidsAreLower(ShapeOf(L), rank, n);
    if i < |n.kids| {
      assert Placed(ShapeOf(L), n, n.kids, i);
      FieldsOf(L, n.kids[i]);
    }
  }

  /** The loop shared by DeepClone and DeepCopy: for each child of `n`, in order, a deep clone is made the last child of `into`. */
  method CloneChildren(n: XMLNode, into: XMLNode, target: XMLDocument, ghost L: set<XMLNode>, ghost rank: map<XMLNode, nat>)
    requires Forest(ShapeOf(L), rank) && n in L && Cloneable(ShapeOf(L)) && into !in L
    requires target.Valid() && into in target.live && into.parent == null && into.kids == []
    modifies target`unlinked, target`untracked, target`waiting, target`currentAllocs, target`live, target`rank, into
    ensures target.Valid() && into in target.live && into.parent == null
    ensures ChildrenSay(ShapeOf(target.live), target.rank, into, Below(ShapeOf(L), rank, n))
    ensures old(target.live) <= target.live && fresh(target.live - old(target.live))
    decreases Height(rank, n), 0
  {
    hide Forest, ShapeOf, Cloneable, ChildrenSay, Below, Reading, XMLDocument.Valid;
    ghost var s, i := ShapeOf(L), 0;
    var child := n.firstChild;
    Walk(L, rank, n, 0);
    ghost var trees := Below(s, rank, n);
    HoldsNothing(target, into);
    BelowAt(s, rank, n, 0);
    assert trees[..0] == [];
    while child != null
      invariant ShapeOf(L) == s && i <= |n.kids| && child == (if i < |n.kids| then n.kids[i] else null)
      invariant target.Valid() && into in target.live && into.parent == null && |into.kids| == i
      invariant into.lastChild != null ==> fresh(into.lastChild)
      invariant ChildrenSay(ShapeOf(target.live), target.rank, into, trees[..i])
      invariant old(target.live) <= target.live && fresh(target.live - old(target.live))
      decreases |n.kids| - i
    {
      Walk(L, rank, n, i);
      BelowAt(s, rank, n, i);
      CloneOne(child, into, target, L, rank, trees[..i]);
      assert trees[..i + 1] == trees[..i] + [trees[i]];
      Walk(L, rank, n, i + 1);
      child := child.next;
      i := i + 1;
    }
    BelowAt(s, rank, n, i);
    assert trees[..i] == trees;
  }

  /** One round of that loop. */
  method CloneOne(c: XMLNode, into: XMLNode, target: XMLDocument, ghost L: set<XMLNode>, ghost rank: map<XMLNode, nat>, ghost trees: seq<Tree>)
    requires Forest(ShapeOf(L), rank) && Cloneable(ShapeOf(L)) && into !in L && c in L && !c.payload.DocumentNode?
    requires target.Valid() && into in target.live && into.parent == null
    requires into.lastChild != null ==> into.lastChild !in L
    requires ChildrenSay(ShapeOf(target.live), target.rank, into, trees)
    modifies target`unlinked, target`untracked, target`waiting, target`currentAllocs, target`live, target`rank, into, Or(into.lastChild, into)`next
    ensures target.Valid() && into in target.live && into.parent == null && |into.kids| == |old(into.kids)| + 1
    ensures into.lastChild != null && fresh(into.lastChild)
    ensures ChildrenSay(ShapeOf(target.live), target.rank, into, trees + [Reading(ShapeOf(L), rank, c)])
    ensures old(target.live) <= target.live && fresh(target.live - old(target.live))
    decreases Height(rank, c), 3
  {
    hide Forest, ShapeOf, Cloneable, ChildrenSay, SameBelow, Below;
    var cc := ReadyCopy(c, into, target, L, rank, trees);
    ghost var t', up' := ShapeOf(target.live), target.rank;
    FieldsOf(target.live, into);
    AppendRoot(target, into, cc);
    ForestOf(target);
    FieldsOf(target.live, into);
    HoldsMore(t', up', ShapeOf(target.live), target.rank, into, cc, trees);
    LastKid(target, into);
  }

  /** The copy, made beside those that are there. */
  method ReadyCopy(c: XMLNode, into: XMLNode, target: XMLDocument, ghost L: set<XMLNode>, ghost rank: map<XMLNode, nat>, ghost trees: seq<Tree>)
    returns (cc: XMLNode)
    requires Forest(ShapeOf(L), rank) && Cloneable(ShapeOf(L)) && c in L && !c.payload.DocumentNode?
    requires target.Valid() && into in target.live && ChildrenSay(ShapeOf(target.live), target.rank, into, trees)
    modifies target`unlinked, target`untracked, target`waiting, target`currentAllocs, target`live, target`rank
    ensures target.Valid() && old(target.live) <= target.live && fresh(target.live - old(target.live))
    ensures ChildrenSay(ShapeOf(target.live), target.rank, into, trees)
    ensures fresh(cc) && cc in target.live && cc.parent == null && cc != into && cc != target.node && cc.document == target.id
    ensures Reading(ShapeOf(target.live), target.rank, cc) == Reading(ShapeOf(L), rank, c)
    decreases Height(rank, c), 2
  {
    hide Forest, ShapeOf, Cloneable, ChildrenSay, SameBelow, Below;
    ghost var T, t, up := target.live, ShapeOf(target.live), target.rank;
    ShapeIs(T);
    ForestOf(target);
    var clone := DeepClone(c, target, L, rank);
    cc := clone;
    ForestOf(target);
    Grown(T, target.live, up, t);
    ChildrenStillSay(t, up, ShapeOf(target.live), target.rank, into, trees);
  }

  /** XMLNode::DeepClone into any document; a document itself is not cloned. */
  method DeepClone(n: XMLNode, target: XMLDocument, ghost L: set<XMLNode>, ghost rank: map<XMLNode, nat>) returns (clone: XMLNode?)
    requires Forest(ShapeOf(L), rank) && n in L && Cloneable(ShapeOf(L)) && target.Valid()
    modifies target`unlinked, target`untracked, target`waiting, target`currentAllocs, target`live, target`rank
    ensures target.Valid() && old(target.live) <= target.live && fresh(target.live - old(target.live))
    ensures n.payload.DocumentNode? ==> clone == null && target.live == old(target.live)
    ensures !n.payload.DocumentNode? ==>
              && clone != null && fresh(clone) && clone in target.live && clone.parent == null && clone.document == target.id
              && Reading(ShapeOf(target.live), target.rank, clone) == Reading(ShapeOf(L), rank, n)
    decreases Height(rank, n), 1
  {
    hide Forest, ShapeOf, Below, ChildrenSay;
    if n.payload.DocumentNode? {
      return null;
    }
    FieldsOf(L, n);
    clone := ShallowClone(n.payload, target);
    CloneChildren(n, clone, target, L, rank);
    HoldsAll(ShapeOf(target.live), target.rank, clone, Below(ShapeOf(L), rank, n));
  }

  /** XMLDocument::DeepCopy: the target is cleared, and then holds fresh copies of all that the source holds. */
  method DeepCopy(source: XMLDocument, target: XMLDocument)
    requires source.Valid() && target.Valid() && Cloneable(ShapeOf(source.live)) && (source != target ==> source.live !! target.live)
    modifies target`unlinked, target`untracked, target`waiting, target`currentAllocs, target`live, target`rank, target`freed, target.live
    ensures source == target ==> unchanged(target) && unchanged(target.live)
    ensures source != target ==>
              && target.Valid() && source.Valid() && unchanged(source) && unchanged(source.live) && source.node in source.live
              && ChildrenSay(ShapeOf(target.live), target.rank, target.node, Below(ShapeOf(source.live), source.rank, source.node))
              && (forall path :: path != [] ==> SameAlong(ShapeOf(source.live), source.node, ShapeOf(target.live), target.node, path))
              && fresh(target.live - {target.node}) && target.freed == old(target.freed) + (old(target.live) - {target.node})
  {
    hide Forest, ShapeOf, Cloneable, ChildrenSay, Below, SameAlong;
    if target == source {
      return;
    }
    ForestOf(source);
    ForestOf(target);
    target.Clear();
    ForestOf(target);
    FieldsOf(target.live, target.node);
    CloneChildren(source.node, target.node, target, source.live, source.rank);
    CopySays(source, target);
  }

  lemma CopySays(source: XMLDocument, target: XMLDocument)
    requires source.Valid() && target.Valid()
    requires ChildrenSay(ShapeOf(target.live), target.rank, target.node, Below(ShapeOf(source.live), source.rank, source.node))
    ensures forall path :: path != [] ==> SameAlong(ShapeOf(source.live), source.node, ShapeOf(target.live), target.node, path)
  {
    hide Forest, ShapeOf, ChildrenSay, Below, SameAlong, XMLDocument.Valid;
    ForestOf(source);
    FieldsOf(source.live, source.node);
    SayTheSame(ShapeOf(source.live), source.rank, source.node, ShapeOf(target.live), target.rank, target.node);
  }

  lemma SayTheSame(s: Shape, rank: map<XMLNode, nat>, x: XMLNode, t: Shape, up: map<XMLNode, nat>, y: XMLNode)
    requires Forest(s, rank) && x in s.nodes && ChildrenSay(t, up, y, Below(s, rank, x))
    ensures forall path :: path != [] ==> SameAlong(s, x, t, y, path)
  {
    hide Forest, Below, SameAlong, TreeOf;
    HoldsAll(t, up, y, Below(s, rank, x));
    forall path | path != []
      ensures SameAlong(s, x, t, y, path)
    {
      SamePaths(s, rank, x, t, up, y, path);
    }
  }
}
