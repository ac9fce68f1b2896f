/** What a node says, with all that is below it, as a value; and building such a tree child by child. Copying and parsing share this. */
module DomTrees {
  import opened DomShape
  import opened Dom

  // ---------- what a node says ----------

  /** A node and its children as a value: no identities, no links. */
  datatype Tree = Tree(payload: Payload, kids: seq<Tree>)

  lemma KidsAreLower(s: Shape, rank: map<XMLNode, nat>, n: XMLNode)
    requires Forest(s, rank) && n in s.nodes
    ensures Whole(s) && forall i :: 0 <= i < |s.kids[n]| ==>
              s.kids[n][i] in s.nodes && Height(rank, s.kids[n][i]) < Height(rank, n) && s.parent[s.kids[n][i]] == n
  {
    hide Hangs, NoneTwice;
    ChainOf(s, rank, n);
    forall i | 0 <= i < |s.kids[n]|
      ensures s.kids[n][i] in s.nodes && Height(rank, s.kids[n][i]) < Height(rank, n) && s.parent[s.kids[n][i]] == n
    {
      assert Placed(s, n, s.kids[n], i);
      ChainOf(s, rank, s.kids[n][i]);
    }
  }

  ghost function TreeOf(s: Shape, rank: map<XMLNode, nat>, n: XMLNode): Tree
    requires Forest(s, rank) && n in s.nodes
    decreases Height(rank, n), 1, 0
  {
    Tree(n.payload, TreesFrom(s, rank, n, 0))
  }

  ghost function TreesFrom(s: Shape, rank: map<XMLNode, nat>, n: XMLNode, i: nat): (r: seq<Tree>)
    requires Forest(s, rank) && n in s.nodes && Whole(s) && i <= |s.kids[n]|
    ensures |r| == |s.kids[n]| - i
    decreases Height(rank, n), 0, |s.kids[n]| - i
  {
    KidsAreLower(s, rank, n);
    if i == |s.kids[n]| then [] else [TreeOf(s, rank, s.kids[n][i])] + TreesFrom(s, rank, n, i + 1)
  }

  lemma {:induction false} TreesAt(s: Shape, rank: map<XMLNode, nat>, n: XMLNode, i: nat, j: nat)
    requires Forest(s, rank) && n in s.nodes && Whole(s) && i <= j < |s.kids[n]|
    ensures s.kids[n][j] in s.nodes && TreesFrom(s, rank, n, i)[j - i] == TreeOf(s, rank, s.kids[n][j])
    decreases j - i
  {
    hide TreeOf, Forest;
    KidsAreLower(s, rank, n);
    if i < j {
      TreesAt(s, rank, n, i + 1, j);
    }
  }

  /** Whatever else changes: where the children in `c` are the same, and none lies outside, the trees are the same. */
  ghost predicate SameBelow(s: Shape, t: Shape, c: set<XMLNode>) {
    && Whole(s) && Whole(t) && c <= s.nodes && c <= t.nodes
    && (forall m :: m in c ==> t.kids[m] == s.kids[m])
    && (forall m, i :: m in c && 0 <= i < |s.kids[m]| ==> s.kids[m][i] in c)
  }

  lemma {:induction false} TreeStays(s: Shape, rank: map<XMLNode, nat>, t: Shape, up: map<XMLNode, nat>, c: set<XMLNode>, n: XMLNode)
    requires Forest(s, rank) && Forest(t, up) && SameBelow(s, t, c) && n in c
    ensures TreeOf(t, up, n) == TreeOf(s, rank, n)
    decreases Height(rank, n), 1, 0
  {
    hide Forest;
    TreesStay(s, rank, t, up, c, n, 0);
  }

  lemma {:induction false} TreesStay(s: Shape, rank: map<XMLNode, nat>, t: Shape, up: map<XMLNode, nat>, c: set<XMLNode>, n: XMLNode, i: nat)
    requires Forest(s, rank) && Forest(t, up) && SameBelow(s, t, c) && n in c && i <= |s.kids[n]|
    ensures TreesFrom(t, up, n, i) == TreesFrom(s, rank, n, i)
    decreases Height(rank, n), 0, |s.kids[n]| - i
  {
    hide Forest;
    KidsAreLower(s, rank, n);
    KidsAreLower(t, up, n);
    if i < |s.kids[n]| {
      TreeStays(s, rank, t, up, c, s.kids[n][i]);
      TreesStay(s, rank, t, up, c, n, i + 1);
    }
  }

  /** `cc`, which had no parent, is now the last child of `into`. */
  ghost predicate AppendedTo(s: Shape, t: Shape, into: XMLNode, cc: XMLNode) {
    Whole(s) && into in s.nodes && cc in s.nodes && s.parent[cc] == null && t == Inserted(s, into, cc, |s.kids[into]|)
  }

  /** A node of `target` that hangs nowhere and has no parent to be taken from becomes the last child of a root. */
  method AppendRoot(target: XMLDocument, into: XMLNode, cc: XMLNode)
    requires target.Valid() && into in target.live && cc in target.live && into.parent == null && cc.parent == null
    requires cc != into && cc != target.node && cc.document == target.id
    modifies target`unlinked, target`untracked, target`waiting, target`rank, into, cc, Or(into.lastChild, into)`next
    ensures target.Valid() && target.live == old(target.live) && into.parent == null && into.kids == old(into.kids) + [cc]
    ensures SameBelow(old(ShapeOf(target.live)), ShapeOf(target.live), target.live - {into})
    ensures AppendedTo(old(ShapeOf(target.live)), ShapeOf(target.live), into, cc)
  {
    hide Forest, ShapeOf, Above, Moved, Detached, SameBelow, AppendedTo;
    ghost var s, up := ShapeOf(target.live), target.rank;
    CanAppend(target, into, cc);
    var _ := target.InsertEndChild(into, cc);
    AppendedAt(target, s, up, into, cc);
  }

  lemma CanAppend(target: XMLDocument, into: XMLNode, cc: XMLNode)
    requires target.Valid() && into in target.live && cc in target.live && into.parent == null && cc.parent == null
    requires cc != into && cc != target.node
    ensures target.Insertable(into, cc) && Around(cc) == {cc} && Forest(ShapeOf(target.live), target.rank)
    ensures var s := ShapeOf(target.live); Whole(s) && s.nodes == target.live && s.parent[into] == null && s.parent[cc] == null && s.kids[into] == into.kids
  {
    hide ShapeOf, Chain, Ranked;
    FieldsOf(target.live, into);
    FieldsOf(target.live, cc);
    ChainOf(ShapeOf(target.live), target.rank, cc);
  }

  lemma MovedIsAppended(s: Shape, into: XMLNode, cc: XMLNode)
    requires Whole(s) && into in s.nodes && cc in s.nodes && s.parent[cc] == null
    ensures Detached(s, cc) == s && Moved(s, into, cc, |s.kids[into]|) == Inserted(s, into, cc, |s.kids[into]|)
  {
    hide Inserted, Unlinked;
  }

  lemma AppendedAt(target: XMLDocument, s: Shape, up: map<XMLNode, nat>, into: XMLNode, cc: XMLNode)
    requires Forest(s, up) && Whole(s) && s.nodes == target.live && into in s.nodes && cc in s.nodes && cc !in Above(s, up, into) && cc != into
    requires s.parent[into] == null && s.parent[cc] == null
    requires ShapeOf(target.live) == Moved(s, into, cc, |Detached(s, cc).kids[into]|)
    ensures into.parent == null && into.kids == s.kids[into] + [cc]
    ensures SameBelow(s, ShapeOf(target.live), target.live - {into})
    ensures AppendedTo(s, ShapeOf(target.live), into, cc)
  {
    hide Forest, ShapeOf, Above, Moved, Detached, Inserted;
    MovedIsAppended(s, into, cc);
    var t, k := ShapeOf(target.live), |Detached(s, cc).kids[into]|;
    FieldsOf(target.live, into);
    MovedKids(s, up, into, cc, k, into);
    DetachedFields(s, up, cc, into);
    NoChild(s, up, into, cc);
    forall m | m in s.nodes && m != into
      ensures t.kids[m] == s.kids[m]
      ensures forall i :: 0 <= i < |s.kids[m]| ==> s.kids[m][i] in s.nodes && s.kids[m][i] != into
    {
      MovedKids(s, up, into, cc, k, m);
      NoChild(s, up, m, cc);
      NoChild(s, up, m, into);
      KidsAreLower(s, up, m);
    }
  }

  /** The trees below a node of a forest, and the node's own. */
  ghost function Below(s: Shape, rank: map<XMLNode, nat>, n: XMLNode): seq<Tree> {
    if Forest(s, rank) && n in s.nodes then TreesFrom(s, rank, n, 0) else []
  }

  ghost function Reading(s: Shape, rank: map<XMLNode, nat>, n: XMLNode): Tree {
    Tree(n.payload, Below(s, rank, n))
  }

  lemma ReadingIs(s: Shape, rank: map<XMLNode, nat>, n: XMLNode)
    requires Forest(s, rank) && n in s.nodes
    ensures Reading(s, rank, n) == TreeOf(s, rank, n)
  {
    hide Forest, TreesFrom;
  }

  /** The children of `into` say `trees`, in order. */
  ghost predicate ChildrenSay(t: Shape, up: map<XMLNode, nat>, into: XMLNode, trees: seq<Tree>) {
    && Forest(t, up) && into in t.nodes && |t.kids[into]| == |trees|
    && forall j :: 0 <= j < |trees| ==> t.kids[into][j] in t.nodes && t.kids[into][j] != into && TreeOf(t, up, t.kids[into][j]) == trees[j]
  }

  /** Growing the document elsewhere changes nothing about the children already there. */
  lemma ChildrenStillSay(t: Shape, up: map<XMLNode, nat>, t': Shape, up': map<XMLNode, nat>, into: XMLNode, trees: seq<Tree>)
    requires ChildrenSay(t, up, into, trees) && Forest(t', up') && SameBelow(t, t', t.nodes)
    ensures ChildrenSay(t', up', into, trees)
  {
    hide Forest, TreeOf;
    forall j | 0 <= j < |trees|
      ensures TreeOf(t', up', t.kids[into][j]) == TreeOf(t, up, t.kids[into][j])
    {
      TreeStays(t, up, t', up', t.nodes, t.kids[into][j]);
    }
  }

  /** One more child, whose tree stood ready. */
  lemma HoldsMore(t: Shape, up: map<XMLNode, nat>, t': Shape, up': map<XMLNode, nat>, into: XMLNode, cc: XMLNode, trees: seq<Tree>)
    requires ChildrenSay(t, up, into, trees) && Forest(t', up') && SameBelow(t, t', t.nodes - {into}) && t'.nodes == t.nodes
    requires cc in t.nodes && cc != into && t'.kids[into] == t.kids[into] + [cc]
    ensures ChildrenSay(t', up', into, trees + [Reading(t, up, cc)])
  {
    hide Forest, TreeOf;
    var c := t.nodes - {into};
    forall j | 0 <= j < |trees|
      ensures TreeOf(t', up', t.kids[into][j]) == TreeOf(t, up, t.kids[into][j])
    {
      TreeStays(t, up, t', up', c, t.kids[into][j]);
    }
    TreeStays(t, up, t', up', c, cc);
    ReadingIs(t, up, cc);
  }

  /** All children there: so is the tree. */
  lemma HoldsAll(t: Shape, up: map<XMLNode, nat>, into: XMLNode, trees: seq<Tree>)
    requires ChildrenSay(t, up, into, trees)
    ensures Below(t, up, into) == trees && Reading(t, up, into) == Tree(into.payload, trees)
  {
    hide Chain, Hangs, Ranked, TreeOf;
    forall j | 0 <= j < |trees|
      ensures TreesFrom(t, up, into, 0)[j] == trees[j]
    {
      TreesAt(t, up, into, 0, j);
    }
    assert TreesFrom(t, up, into, 0) == trees;
  }

  /** The trees of the children are those below. */
  lemma BelowAt(s: Shape, rank: map<XMLNode, nat>, n: XMLNode, i: nat)
    requires Forest(s, rank) && Whole(s) && n in s.nodes
    ensures |Below(s, rank, n)| == |s.kids[n]|
    ensures i < |s.kids[n]| ==> Below(s, rank, n)[i] == Reading(s, rank, s.kids[n][i])
  {
    hide Forest;
    if i < |s.kids[n]| {
      TreesAt(s, rank, n, 0, i);
      ReadingIs(s, rank, s.kids[n][i]);
    }
  }

  // ---------- from the links ----------

  /** The node that is reached from `x` by going down to the child of the given number, again and again. */
  ghost function Follow(s: Shape, x: XMLNode, path: seq<nat>): XMLNode?
    decreases path
  {
    if path == [] then x
    else if x in s.kids && path[0] < |s.kids[x]| then Follow(s, s.kids[x][path[0]], path[1..])
    else null
  }

  /** Along the path there is a node below neither, or one below each, and these say the same of themselves. */
  ghost predicate SameAlong(s: Shape, x: XMLNode, t: Shape, y: XMLNode, path: seq<nat>) {
    var a, b := Follow(s, x, path), Follow(t, y, path);
    (a == null <==> b == null) && (a != null && b != null ==> a.payload == b.payload)
  }

  /** Equal trees are equal along every path. */
  lemma {:induction false} SamePaths(s: Shape, rank: map<XMLNode, nat>, x: XMLNode, t: Shape, up: map<XMLNode, nat>, y: XMLNode, path: seq<nat>)
    requires Forest(s, rank) && Forest(t, up) && x in s.nodes && y in t.nodes && path != [] && Below(s, rank, x) == Below(t, up, y)
    ensures SameAlong(s, x, t, y, path)
    decreases |path|
  {
    hide Forest, Below, TreeOf, TreesFrom;
    KidsAreLower(s, rank, x);
    KidsAreLower(t, up, y);
    BelowAt(s, rank, x, path[0]);
    BelowAt(t, up, y, path[0]);
    if path[0] < |s.kids[x]| {
      var a, b := s.kids[x][path[0]], t.kids[y][path[0]];
      assert Reading(s, rank, a) == Reading(t, up, b);
      assert Follow(s, x, path) == Follow(s, a, path[1..]) && Follow(t, y, path) == Follow(t, b, path[1..]);
      if |path| > 1 {
        SamePaths(s, rank, a, t, up, b, path[1..]);
      } else {
        assert path[1..] == [];
        assert Follow(s, a, path[1..]) == a && Follow(t, b, path[1..]) == b;
        assert a.payload == b.payload;
      }
    }
  }

  lemma HoldsNothing(target: XMLDocument, into: XMLNode)
    requires target.Valid() && into in target.live && into.kids == []
    ensures into.lastChild == null && ChildrenSay(ShapeOf(target.live), target.rank, into, [])
  {
    hide TreeOf, ShapeOf, Hangs, Ranked, Placed, NoneTwice;
    FieldsOf(target.live, into);
    ChainOf(ShapeOf(target.live), target.rank, into);
  }

  /** More nodes, the old ones as they were. */
  lemma Grown(L: set<XMLNode>, L': set<XMLNode>, rank: map<XMLNode, nat>, s: Shape)
    requires L <= L' && Forest(s, rank) && Whole(s) && s.nodes == L && s.kids == AllKids(L)
    ensures SameBelow(s, ShapeOf(L'), L)
  {
    hide Forest, ShapeOf;
    ShapeFields(L');
    forall m | m in L
      ensures ShapeOf(L').kids[m] == s.kids[m]
      ensures forall i :: 0 <= i < |s.kids[m]| ==> s.kids[m][i] in L
    {
      FieldsOf(L', m);
      KidsAreLower(s, rank, m);
    }
  }

  lemma ShapeIs(L: set<XMLNode>)
    ensures var s := ShapeOf(L); Whole(s) && s.nodes == L && s.kids == AllKids(L)
  {
  }

  lemma ForestOf(target: XMLDocument)
    requires target.Valid()
    ensures Forest(ShapeOf(target.live), target.rank) && target.node in target.live && Whole(ShapeOf(target.live))
  {
    hide Chain, Hangs, Ranked;
  }

  lemma LastKid(target: XMLDocument, into: XMLNode)
    requires target.Valid() && into in target.live
    ensures into.lastChild == (if into.kids == [] then null else into.kids[|into.kids| - 1])
  {
    hide Hangs, Ranked, Placed, NoneTwice, ShapeOf;
    FieldsOf(target.live, into);
    ChainOf(ShapeOf(target.live), target.rank, into);
  }

  // ---------- where InsertAfterChild goes wrong ----------

  lemma TwoKids(doc: XMLDocument, a: XMLNode, b: XMLNode)
    requires doc.Valid() && doc.node.kids == [a, b]
    ensures doc.Rooted() && doc.node in doc.live && a in doc.live && b in doc.live && a.parent == doc.node && a.next == b && b.next == null && b.prev == a
    ensures b.parent == doc.node && doc.node.lastChild == b && a != b && b.document == doc.id && doc.Insertable(doc.node, b)
  {
    hide ShapeOf, Hangs, Ranked;
    var s := ShapeOf(doc.live);
    FieldsOf(doc.live, doc.node);
    ChainOf(s, doc.rank, doc.node);
    assert Placed(s, doc.node, s.kids[doc.node], 0) && Placed(s, doc.node, s.kids[doc.node], 1);
    FieldsOf(doc.live, a);
    FieldsOf(doc.live, b);
    assert s.kids[doc.node][0] != s.kids[doc.node][1];
  }

  /** A new node, at the end of the document. */
  method AppendNew(doc: XMLDocument, payload: Payload) returns (n: XMLNode)
    requires doc.Valid() && !payload.DocumentNode?
    modifies doc`unlinked, doc`untracked, doc`waiting, doc`currentAllocs, doc`live, doc`rank, doc.node, Or(doc.node.lastChild, doc.node)`next
    ensures doc.Valid() && fresh(n) && n.document == doc.id && doc.node.kids == old(doc.node.kids) + [n] && doc.node.lastChild == n
  {
    hide ShapeOf, Forest, XMLDocument.Valid;
    RootIs(doc);
    n := doc.CreateUnlinkedNode(payload);
    RootIs(doc);
    AppendRoot(doc, doc.node, n);
    RootIs(doc);
    LastKid(doc, doc.node);
  }

  lemma RootIs(doc: XMLDocument)
    requires doc.Valid()
    ensures doc.node in doc.live && doc.node.parent == null
  {
    hide Forest;
  }

  /** Two children, the second of which is to be inserted behind the first, where it is already. */
  method InsertWhereItIs(payload: Payload) returns (r: Insertion)
    requires !payload.DocumentNode?
    ensures r == NullDereference
  {
    hide ShapeOf, Forest, XMLDocument.Valid, XMLDocument.Insertable, XMLDocument.Rooted;
    var doc := new XMLDocument(0);
    LastKid(doc, doc.node);
    var a := AppendNew(doc, payload);
    var b := AppendNew(doc, payload);
    assert doc.node.kids == [a, b];
    TwoKids(doc, a, b);
    r := doc.InsertAfterChild(doc.node, a, b);
  }
}
