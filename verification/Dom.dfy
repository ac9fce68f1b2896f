/** The document object of tinyxml2: links between nodes, the list of nodes that hang nowhere yet, and the counters of the node
    pools. The operations of XMLNode that change links are methods of the document that take the node as `self`. */
module Dom {
  import opened DomShape
  import opened XmlSyntax
  import MemPools

  function Or(x: XMLNode?, y: XMLNode): XMLNode {
    if x == null then y else x
  }

  /** What XMLNode::Unlink may write: the child, its parent and its two neighbours. */
  ghost function Around(c: XMLNode): set<XMLNode>
    reads c
  {
    {c} + (if c.parent == null then {} else {c.parent}) + (if c.prev == null then {} else {c.prev}) + (if c.next == null then {} else {c.next})
  }

  lemma InShape(L: set<XMLNode>, rank: map<XMLNode, nat>, c: XMLNode)
    requires Forest(ShapeOf(L), rank) && c in L && c.parent != null
    ensures Around(c) <= L && c.prev != c && c.next != c && c.parent != c && c.prev != c.parent && c.next != c.parent
    ensures c.prev == null || c.prev != c.next
  {
    hide Chain, Hangs, Ranked, Placed, NoneTwice, Whole;
    var s := ShapeOf(L);
    var p, i := Place(s, rank, c);
    Distinctly(s, rank, c, p, i);
  }

  lemma Distinctly(s: Shape, rank: map<XMLNode, nat>, c: XMLNode, p: XMLNode, i: nat)
    requires Forest(s, rank) && At(s, c, p, i)
    ensures s.prev[c] != p && s.next[c] != p && (s.prev[c] == null || s.prev[c] != s.next[c])
    ensures s.prev[c] != null ==> s.prev[c] in s.nodes
    ensures s.next[c] != null ==> s.next[c] in s.nodes
  {
    ChainOf(s, rank, p);
    if 0 < i && i + 1 < |s.kids[p]| {
      assert s.kids[p][i - 1] != s.kids[p][i + 1];
    }
    assert s.prev[c] != null ==> Ranked(s, s.prev[c], rank);
    assert s.next[c] != null ==> Ranked(s, s.next[c], rank);
  }

  /** XMLNode::Unlink, for a child of `self`. */
  method Unlink(self: XMLNode, child: XMLNode, ghost L: set<XMLNode>, ghost rank: map<XMLNode, nat>)
    requires self in L && child in L && child.parent == self && Forest(ShapeOf(L), rank)
    modifies Around(child)
    ensures ShapeOf(L) == Unlinked(old(ShapeOf(L)), child) && Forest(ShapeOf(L), rank)
  {
    hide Forest, Unlinked, ShapeOf;
    InShape(L, rank, child);
    FieldsOf(L, child);
    UnlinkedIsForest(ShapeOf(L), rank, child);
    UnlinkPointers(self, child, L);
  }

  method UnlinkPointers(self: XMLNode, child: XMLNode, ghost L: set<XMLNode>)
    requires self in L && child in L && child.parent == self && Around(child) <= L
    requires child.prev != child && child.next != child && self != child && child.prev != self && child.next != self
    requires child.prev == null || child.prev != child.next
    modifies self`firstChild, self`lastChild, self`kids, child`next, child`prev, child`parent, Or(child.prev, child)`next, Or(child.next, child)`prev
    ensures ShapeOf(L) == Unlinked(old(ShapeOf(L)), child)
  {
    hide Removed, ShapeOf, Whole;
    ghost var s := ShapeOf(L);
    FieldsOf(L, self);
    FieldsOf(L, child);
    UnlinkEnds(self, child, L);
    UnlinkSiblings(child, L);
    assert ShapeOf(L) == Unlinked(s, child);
  }

  method UnlinkEnds(self: XMLNode, child: XMLNode, ghost L: set<XMLNode>)
    requires self in L && self != child && child in L
    modifies self`firstChild, self`lastChild, self`kids
    ensures var s := old(ShapeOf(L));
            self in s.first && self in s.last && self in s.kids && child in s.next && child in s.prev &&
            ShapeOf(L) == s.(first := if s.first[self] == child then s.first[self := s.next[child]] else s.first,
                             last := if s.last[self] == child then s.last[self := s.prev[child]] else s.last,
                             kids := s.kids[self := Removed(s.kids[self], child)])
  {
    hide ShapeOf, Removed;
    FieldsOf(L, self);
    FieldsOf(L, child);
    if child == self.firstChild {
      self.SetFirst(self.firstChild.next, L);
    }
    if child == self.lastChild {
      self.SetLast(self.lastChild.prev, L);
    }
    self.SetKids(Removed(self.kids, child), L);
  }

  method UnlinkSiblings(child: XMLNode, ghost L: set<XMLNode>)
    requires child in L && (child.prev != null ==> child.prev in L) && (child.next != null ==> child.next in L)
    requires child.prev != child && child.next != child
    modifies child`next, child`prev, child`parent, Or(child.prev, child)`next, Or(child.next, child)`prev
    ensures var s := old(ShapeOf(L));
            child in s.prev && child in s.next &&
            ShapeOf(L) == s.(next := Set(s.next, s.prev[child], s.next[child])[child := null],
                             prev := Set(s.prev, s.next[child], s.prev[child])[child := null],
                             parent := s.parent[child := null])
  {
    hide ShapeOf;
    FieldsOf(L, child);
    if child.prev != null {
      child.prev.SetNext(child.next, L);
    }
    if child.next != null {
      child.next.SetPrev(child.prev, L);
    }
    child.SetNext(null, L);
    child.SetPrev(null, L);
    child.SetParent(null, L);
  }

  // ---------- linking a node that hangs nowhere ----------

  method LinkEnd(self: XMLNode, addThis: XMLNode, ghost L: set<XMLNode>)
    requires self in L && addThis in L && self != addThis && (self.lastChild != null ==> self.lastChild in L && self.lastChild != addThis)
    requires self.lastChild == (if self.kids == [] then null else self.kids[|self.kids| - 1])
    modifies self`firstChild, self`lastChild, self`kids, addThis`prev, addThis`next, addThis`parent, Or(self.lastChild, self)`next
    ensures var s := old(ShapeOf(L)); Whole(s) && s.nodes == L && ShapeOf(L) == Inserted(s, self, addThis, |s.kids[self]|)
  {
    hide ShapeOf;
    FieldsOf(L, self);
    FieldsOf(L, addThis);
    ghost var kids := self.kids;
    if self.lastChild != null {
      self.lastChild.SetNext(addThis, L);
      addThis.SetPrev(self.lastChild, L);
      self.SetLast(addThis, L);
      addThis.SetNext(null, L);
    } else {
      self.SetFirst(addThis, L);
      self.SetLast(addThis, L);
      addThis.SetPrev(null, L);
      addThis.SetNext(null, L);
    }
    addThis.SetParent(self, L);
    self.SetKids(InsertAt(kids, |kids|, addThis), L);
  }

  method LinkFirst(self: XMLNode, addThis: XMLNode, ghost L: set<XMLNode>)
    requires self in L && addThis in L && self != addThis && (self.firstChild != null ==> self.firstChild in L && self.firstChild != addThis)
    requires self.firstChild == (if self.kids == [] then null else self.kids[0])
    modifies self`firstChild, self`lastChild, self`kids, addThis`prev, addThis`next, addThis`parent, Or(self.firstChild, self)`prev
    ensures var s := old(ShapeOf(L)); Whole(s) && s.nodes == L && ShapeOf(L) == Inserted(s, self, addThis, 0)
  {
    hide ShapeOf;
    FieldsOf(L, self);
    FieldsOf(L, addThis);
    ghost var kids := self.kids;
    if self.firstChild != null {
      self.firstChild.SetPrev(addThis, L);
      addThis.SetNext(self.firstChild, L);
      self.SetFirst(addThis, L);
      addThis.SetPrev(null, L);
    } else {
      self.SetFirst(addThis, L);
      self.SetLast(addThis, L);
      addThis.SetPrev(null, L);
      addThis.SetNext(null, L);
    }
    addThis.SetParent(self, L);
    self.SetKids(InsertAt(kids, 0, addThis), L);
  }

  /** Behind a child that is not the last. */
  method LinkAfter(self: XMLNode, afterThis: XMLNode, addThis: XMLNode, ghost i: nat, ghost L: set<XMLNode>)
    requires self in L && addThis in L && afterThis in L && self != addThis && afterThis != addThis
    requires i + 1 < |self.kids| && self.kids[i] == afterThis && afterThis.next == self.kids[i + 1] && self.kids[i + 1] in L
    requires self.kids[i + 1] != addThis && afterThis != self.kids[i + 1]
    modifies self`kids, addThis`prev, addThis`next, addThis`parent, afterThis`next, Or(afterThis.next, self)`prev
    ensures var s := old(ShapeOf(L)); Whole(s) && s.nodes == L && i + 1 < |s.kids[self]| && ShapeOf(L) == Inserted(s, self, addThis, i + 1)
  {
    hide ShapeOf;
    FieldsOf(L, self);
    FieldsOf(L, addThis);
    FieldsOf(L, afterThis);
    ghost var kids, s, behind := self.kids, ShapeOf(L), afterThis.next;
    Commute(s.prev, addThis, afterThis, behind, addThis);
    Commute(s.next, addThis, behind, afterThis, addThis);
    addThis.SetPrev(afterThis, L);
    addThis.SetNext(afterThis.next, L);
    afterThis.next.SetPrev(addThis, L);
    afterThis.SetNext(addThis, L);
    addThis.SetParent(self, L);
    self.SetKids(InsertAt(kids, i + 1, addThis), L);
    hide InsertAt;
    assert ShapeOf(L) == Inserted(s, self, addThis, i + 1);
  }

  lemma Commute(m: Pointers, a: XMLNode, x: XMLNode?, b: XMLNode, y: XMLNode?)
    requires a != b
    ensures m[a := x][b := y] == m[b := y][a := x]
  {
  }

  // ---------- nodes that hang nowhere, and counters ----------

  ghost function Elements(s: seq<XMLNode>): set<XMLNode> {
    set n | n in s
  }

  /** The nodes without a parent, but for the document's own node. */
  ghost function Hanging(s: Shape, node: XMLNode): set<XMLNode>
    requires Whole(s)
  {
    set n | n in s.nodes && n != node && s.parent[n] == null
  }

  lemma HangingUnlinked(s: Shape, node: XMLNode, c: XMLNode)
    requires Whole(s) && c in s.nodes && s.parent[c] != null && s.parent[c] in s.nodes && c != node
    ensures Hanging(Unlinked(s, c), node) == Hanging(s, node) + {c} && c !in Hanging(s, node)
  {
    hide Removed, Set;
  }

  lemma HangingInserted(s: Shape, node: XMLNode, p: XMLNode, x: XMLNode, k: nat)
    requires Whole(s) && p in s.nodes && x in s.nodes && k <= |s.kids[p]|
    ensures Hanging(Inserted(s, p, x, k), node) == Hanging(s, node) - {x}
  {
    hide InsertAt, Set;
  }

  lemma UnlinkedRoots(s: Shape, c: XMLNode, n: XMLNode)
    requires Whole(s) && c in s.nodes && s.parent[c] != null && s.parent[c] in s.nodes && n in s.nodes
    ensures Unlinked(s, c).parent[n] == if n == c then null else s.parent[n]
  {
    hide Removed, Set;
  }

  lemma HangsThere(s: Shape, node: XMLNode, x: XMLNode)
    requires Whole(s) && x in s.nodes && x != node && s.parent[x] == null
    ensures x in Hanging(s, node)
  {
  }

  ghost function OfPool(nodes: set<XMLNode>, pool: Pool): set<XMLNode> {
    set n | n in nodes && n.pool == pool
  }

  /** One counter per node pool, counting `nodes`. */
  ghost predicate Counted(counter: map<Pool, int>, nodes: set<XMLNode>) {
    forall k: Pool :: k in counter && counter[k] == |OfPool(nodes, k)|
  }

  function Total(counter: map<Pool, int>): int {
    (if ElementPool in counter then counter[ElementPool] else 0) + (if TextPool in counter then counter[TextPool] else 0)
      + (if CommentPool in counter then counter[CommentPool] else 0)
  }

  lemma CountedMore(counter: map<Pool, int>, nodes: set<XMLNode>, x: XMLNode)
    requires Counted(counter, nodes) && x !in nodes
    ensures x.pool in counter && Counted(counter[x.pool := counter[x.pool] + 1], nodes + {x})
  {
    forall k: Pool
      ensures OfPool(nodes + {x}, k) == if k == x.pool then OfPool(nodes, k) + {x} else OfPool(nodes, k)
    {
    }
  }

  lemma CountedLess(counter: map<Pool, int>, nodes: set<XMLNode>, x: XMLNode)
    requires Counted(counter, nodes) && x in nodes
    ensures x.pool in counter && Counted(counter[x.pool := counter[x.pool] - 1], nodes - {x})
  {
    forall k: Pool
      ensures OfPool(nodes - {x}, k) == if k == x.pool then OfPool(nodes, k) - {x} else OfPool(nodes, k)
    {
    }
  }

  lemma SwapRemoved(s: seq<XMLNode>, i: nat)
    requires i < |s| && NoneTwice(s)
    ensures NoneTwice(MemPools.WithoutAt(s, i)) && Elements(MemPools.WithoutAt(s, i)) == Elements(s) - {s[i]}
  {
    var t, last := MemPools.WithoutAt(s, i), |s| - 1;
    assert forall j :: 0 <= j < last ==> t[j] == if j == i then s[last] else s[j];
    forall n | n in s && n != s[i]
      ensures n in t
    {
      var j :| 0 <= j < |s| && s[j] == n;
      assert j < last ==> t[j] == n;
      assert j == last ==> t[i] == n;
    }
  }

  const NO_COUNTS: map<Pool, int> := map[ElementPool := 0, TextPool := 0, CommentPool := 0]

  datatype Insertion = Refused | NullDereference | Added

  class XMLDocument {
    const id: int
    const node: XMLNode  // the document as a node
    var unlinked: seq<XMLNode>
    var untracked: map<Pool, int>
    ghost var waiting: map<Pool, int>  // how many nodes of each pool hang nowhere
    ghost var lost: map<Pool, int>  // how many nodes of each pool have gone without being counted as tracked
    var currentAllocs: map<Pool, int>
    ghost var live: set<XMLNode>
    ghost var freed: set<XMLNode>
    ghost var rank: map<XMLNode, nat>

    /** The links of all nodes form a forest, one of whose roots is the document. */
    ghost predicate Rooted()
      reads `live, `freed, `rank, live
    {
      && node in live && node.parent == null && Forest(ShapeOf(live), rank)
      && (forall n :: n in live ==> n.document == id && n !in freed)
    }

    /** Of all nodes but the document itself, exactly those that hang nowhere stand in `unlinked`, each once; `loose` are the
        exceptions inside an operation. The pools count the nodes in `unlinked` but for `paid` as untracked, and those that parsing
        has deleted without counting them as tracked. */
    ghost predicate Kept(loose: set<XMLNode>, paid: set<XMLNode>)
      reads `unlinked, `untracked, `waiting, `lost, `currentAllocs, `live, live
    {
      Booked(ShapeOf(live), loose, paid)
    }

    /** The same for nodes that are linked as in `s`. */
    ghost predicate Booked(s: Shape, loose: set<XMLNode>, paid: set<XMLNode>)
      reads `unlinked, `untracked, `waiting, `lost, `currentAllocs
    {
      && Whole(s) && NoneTwice(unlinked) && Elements(unlinked) !! loose && Elements(unlinked) + loose == Hanging(s, node)
      && Counted(waiting, Elements(unlinked) - paid) && Counted(currentAllocs, s.nodes - {node}) && Split()
    }

    /** The real count is the right one, but for what has been lost. */
    ghost predicate Split()
      reads `untracked, `waiting, `lost
    {
      forall k: Pool :: k in untracked && k in waiting && k in lost && untracked[k] == waiting[k] + lost[k] && lost[k] >= 0
    }

    /** `_nUntracked++` in a pool, or SetTracked. */
    method Count(k: Pool, d: int)
      requires Split()
      modifies this`untracked, this`waiting
      ensures Split() && k in old(untracked) && k in old(waiting)
      ensures untracked == old(untracked)[k := old(untracked)[k] + d] && waiting == old(waiting)[k := old(waiting)[k] + d]
    {
      untracked, waiting := untracked[k := untracked[k] + d], waiting[k := waiting[k] + d];
    }

    ghost predicate Valid()
      reads this, live
    {
      Rooted() && Kept({}, {})
    }

    constructor (id: int)
      ensures Valid() && this.id == id && fresh(node) && node.payload == DocumentNode && live == {node} && freed == {}
      ensures node.parent == null && node.kids == []
    {
      this.id := id;
      node := new XMLNode(id, ElementPool, DocumentNode);
      unlinked := [];
      untracked, waiting, lost, currentAllocs := NO_COUNTS, NO_COUNTS, NO_COUNTS, NO_COUNTS;
      new;
      live, freed, rank := {node}, {}, map[node := 0];
      Starts();
    }

    lemma Starts()
      requires live == {node} && freed == {} && rank == map[node := 0] && unlinked == [] && node.document == id
      requires untracked == waiting == lost == currentAllocs == NO_COUNTS && node.kids == []
      requires node.parent == null && node.firstChild == null && node.lastChild == null && node.prev == null && node.next == null
      ensures Valid()
    {
      hide Forest, ShapeOf, Elements, Hanging, Counted, NoneTwice;
      NothingCounted();
      AloneIsForest(node);
      NothingHangs(node);
      FieldsOf(live, node);
      assert {node} - {node} == {};
    }

    lemma NothingCounted()
      ensures Counted(NO_COUNTS, {}) && forall k: Pool :: k in NO_COUNTS && NO_COUNTS[k] == 0
    {
      forall k: Pool
        ensures OfPool({}, k) == {} && k in NO_COUNTS
      {
        match k {
          case ElementPool =>
          case TextPool =>
          case CommentPool =>
        }
      }
    }

    static lemma AloneIsForest(n: XMLNode)
      requires n.parent == null && n.firstChild == null && n.lastChild == null && n.prev == null && n.next == null && n.kids == []
      ensures Forest(ShapeOf({n}), map[n := 0])
    {
    }

    static lemma NothingHangs(n: XMLNode)
      ensures Elements([]) == {} && NoneTwice([]) && Hanging(ShapeOf({n}), n) == {}
    {
    }

    /** Takes a node out of the list of those that hang nowhere, if it is there. */
    method MarkInUse(n: XMLNode)
      requires NoneTwice(unlinked)
      modifies this`unlinked
      ensures NoneTwice(unlinked) && Elements(unlinked) == old(Elements(unlinked)) - {n}
    {
      for i := 0 to |unlinked|
        invariant unlinked == old(unlinked) && forall j :: 0 <= j < i ==> unlinked[j] != n
      {
        if n == unlinked[i] {
          SwapRemoved(unlinked, i);
          unlinked := MemPools.WithoutAt(unlinked, i);
          return;
        }
      }
    }

    /** Before a node is linked in: it is unlinked from where it is, or taken out of the list and counted as tracked. */
    method InsertChildPreamble(insertThis: XMLNode)
      requires Valid() && insertThis in live && insertThis != node
      modifies this`unlinked, this`untracked, this`waiting
      modifies Around(insertThis)
      ensures Rooted() && Kept({insertThis}, {})
      ensures ShapeOf(live) == Detached(old(ShapeOf(live)), insertThis) && insertThis.parent == null
    {
      hide Rooted, Kept, ShapeOf, Unlinked;
      FieldsOf(live, insertThis);
      RootedFacts(insertThis);
      if insertThis.parent != null {
        UnlinkFrom(insertThis.parent, insertThis, {});
        assert {} + {insertThis} == {insertThis};
      } else {
        Unlist(insertThis);
      }
    }

    lemma RootedFacts(x: XMLNode)
      requires Rooted() && x in live
      ensures Forest(ShapeOf(live), rank) && node in live && node.parent == null && (x.parent != null ==> x.parent in live)
    {
      hide Chain, Ranked;
      FieldsOf(live, x);
    }

    /** Unlink inside a document: the child then hangs nowhere, and is not in the list of those that do. */
    method UnlinkFrom(self: XMLNode, child: XMLNode, ghost loose: set<XMLNode>)
      requires Rooted() && Kept(loose, {}) && self in live && child in live && child.parent == self
      modifies Around(child)
      ensures Rooted() && Kept(loose + {child}, {}) && child.parent == null && self in old(ShapeOf(live)).nodes
      ensures var s := old(ShapeOf(live)); Whole(s) && child in s.parent && s.parent[child] == self && ShapeOf(live) == Unlinked(s, child)
    {
      hide Forest, ShapeOf, Hanging, Counted, NoneTwice, Unlinked, Elements, Split;
      InShape(live, rank, child);
      FieldsOf(live, child);
      FieldsOf(live, node);
      HangingUnlinked(ShapeOf(live), node, child);
      UnlinkedRoots(ShapeOf(live), child, node);
      UnlinkedRoots(ShapeOf(live), child, child);
      Unlink(self, child, live, rank);
      FieldsOf(live, node);
      FieldsOf(live, child);
    }

    /** The other half of the preamble. */
    method Unlist(x: XMLNode)
      requires Kept({}, {}) && x in live && x != node && x.parent == null
      modifies this`unlinked, this`untracked, this`waiting
      ensures Kept({x}, {})
    {
      hide ShapeOf, Hanging, Counted, NoneTwice, Split;
      FieldsOf(live, x);
      HangsThere(ShapeOf(live), node, x);
      ghost var listed := Elements(unlinked);
      assert listed - {} == listed && listed + {} == listed;
      CountedLess(waiting, listed, x);
      MarkInUse(x);
      Count(x.pool, -1);
      assert listed - {x} - {} == listed - {x};
    }

    // ---------- inserting ----------

    /** A node of this document that is neither `self` nor above it, or a node of another document. */
    ghost predicate Insertable(self: XMLNode, addThis: XMLNode)
      reads this, live
      requires Rooted() && self in live
    {
      addThis.document == id ==> addThis in live && addThis != node && addThis !in Above(ShapeOf(live), rank, self)
    }

    /** The document's nodes are linked as in `s`, and `x` may be moved below `p`. */
    ghost predicate Ready(s: Shape, up: map<XMLNode, nat>, p: XMLNode, x: XMLNode)
      reads `live, `freed
    {
      && Whole(s) && Forest(s, up) && s.nodes == live && p in live && x in live && node in live && x != node && s.parent[node] == null
      && (s.parent[x] != null ==> s.parent[x] in live) && x !in Above(s, up, p) && x != p
      && forall n :: n in live ==> n.document == id && n !in freed
    }

    lemma BeforeInsert(self: XMLNode, x: XMLNode)
      requires Rooted() && self in live && Insertable(self, x) && x.document == id
      ensures Ready(ShapeOf(live), rank, self, x) && node.parent == null && node != x && x in live && self in live && x != self
    {
      hide Forest, Above;
      FieldsOf(live, node);
      ParentIn(ShapeOf(live), rank, x);
    }

    /** With the node back in the tree, everything is in order again. */
    lemma AfterInsert(s: Shape, up: map<XMLNode, nat>, p: XMLNode, x: XMLNode, k: nat)
      requires Ready(s, up, p, x) && k <= |Detached(s, x).kids[p]| && ShapeOf(live) == Moved(s, p, x, k)
      requires x in up && rank == Lifted(up, Above(s, up, p), up[x])
      ensures Rooted()
    {
      hide Forest, Above, Moved, ShapeOf, Lifted;
      MovedIsForest(s, up, p, x, k);
      MovedKids(s, up, p, x, k, node);
      FieldsOf(live, node);
    }

    /** The ends of a list of children, in front of linking `x` in. */
    lemma EndsOf(self: XMLNode, x: XMLNode)
      requires Rooted() && self in live && x in live && x.parent == null
      ensures self.lastChild == (if self.kids == [] then null else self.kids[|self.kids| - 1])
      ensures self.firstChild == (if self.kids == [] then null else self.kids[0])
      ensures forall i :: 0 <= i < |self.kids| ==> self.kids[i] in live && self.kids[i] != x
    {
      hide Forest, Hangs, Ranked, NoneTwice, ShapeOf;
      FieldsOf(live, self);
      FieldsOf(live, x);
      ChainOf(ShapeOf(live), rank, self);
      NoChild(ShapeOf(live), rank, self, x);
      forall i | 0 <= i < |self.kids|
        ensures self.kids[i] in live && self.kids[i] != x
      {
        assert Placed(ShapeOf(live), self, self.kids, i);
      }
    }

    /** Detaching leaves the ends of a list alone, but for the neighbours of the detached node. */
    lemma EndsNearby(s: Shape, self: XMLNode, x: XMLNode)
      requires Whole(s) && self in s.nodes && x in s.nodes && (s.parent[x] != null ==> s.parent[x] in s.nodes)
      ensures var t := Detached(s, x);
              && (t.last[self] == s.last[self] || (s.parent[x] != null && t.last[self] == s.prev[x]))
              && (t.first[self] == s.first[self] || (s.parent[x] != null && t.first[self] == s.next[x]))
    {
      hide Removed, Set;
    }

    method InsertEndChild(self: XMLNode, addThis: XMLNode) returns (r: XMLNode?)
      requires Valid() && self in live && Insertable(self, addThis)
      modifies this`unlinked, this`untracked, this`waiting, this`rank, self`firstChild, self`lastChild, self`kids, Or(self.lastChild, self)`next
      modifies Around(addThis)
      ensures addThis.document != id ==> r == null && unchanged(this) && unchanged(live)
      ensures addThis.document == id ==>
                var s := old(ShapeOf(live));
                && r == addThis && Ready(s, old(rank), self, addThis)
                && ShapeOf(live) == Moved(s, self, addThis, |Detached(s, addThis).kids[self]|)
      ensures addThis.document == id ==> addThis.parent == self && |self.kids| > 0 && StandsAt(old(self.kids), self.kids, addThis, |self.kids| - 1)
      ensures Valid()
    {
      hide ShapeOf, Above, Kept, Rooted, Detached, Moved, Ready, StandsAt;
      if addThis.document != id {
        return null;
      }
      BeforeInsert(self, addThis);
      ghost var s, up, before := ShapeOf(live), rank, self.kids;
      ReadyFacts(s, up, self, addThis);
      FieldsOf(live, self);
      AppendOwn(self, addThis);
      NowThere(self, addThis, |Detached(s, addThis).kids[self]|, s, up, before);
      return addThis;
    }

    /** The moved node as its new parent's links have it. */
    lemma NowThere(self: XMLNode, x: XMLNode, k: nat, s: Shape, up: map<XMLNode, nat>, before: seq<XMLNode>)
      requires Ready(s, up, self, x) && Whole(s) && self in s.nodes && x in s.nodes && (s.parent[x] != null ==> s.parent[x] in s.nodes)
      requires k <= |Detached(s, x).kids[self]| && ShapeOf(live) == Moved(s, self, x, k) && before == s.kids[self]
      ensures x.parent == self && StandsAt(before, self.kids, x, k)
      ensures |self.kids| == |Detached(s, x).kids[self]| + 1 && self.kids[..k] == Detached(s, x).kids[self][..k]
    {
      hide Forest, ShapeOf, Detached, Moved, Above, StandsAt;
      MovedPlaces(s, up, self, x, k);
      FieldsOf(live, self);
      FieldsOf(live, x);
    }

    method AppendOwn(self: XMLNode, addThis: XMLNode)
      requires Valid() && Ready(ShapeOf(live), rank, self, addThis)
      modifies this`unlinked, this`untracked, this`waiting, this`rank, self`firstChild, self`lastChild, self`kids, Or(self.lastChild, self)`next
      modifies Around(addThis)
      ensures Valid()
      ensures var s := old(ShapeOf(live));
              Ready(s, old(rank), self, addThis) && ShapeOf(live) == Moved(s, self, addThis, |Detached(s, addThis).kids[self]|)
    {
      hide ShapeOf, Booked, Rooted, Detached, Inserted, Moved, Ready;
      ghost var s, up := ShapeOf(live), rank;
      AppendLoose(self, addThis, s, up);
      Linked(s, up, self, addThis, |Detached(s, addThis).kids[self]|);
    }

    lemma ReadyFacts(s: Shape, up: map<XMLNode, nat>, p: XMLNode, x: XMLNode)
      requires Ready(s, up, p, x)
      ensures Whole(s) && s.nodes == live && p in live && x in live && x != node && x != p && (s.parent[x] != null ==> s.parent[x] in live)
    {
      hide Forest, Above;
    }

    method AppendLoose(self: XMLNode, addThis: XMLNode, ghost s: Shape, ghost up: map<XMLNode, nat>)
      requires Valid() && s == ShapeOf(live) && Ready(s, up, self, addThis)
      modifies this`unlinked, this`untracked, this`waiting, self`firstChild, self`lastChild, self`kids, Or(self.lastChild, self)`next
      modifies Around(addThis)
      ensures Ready(s, up, self, addThis) && Whole(s) && self in s.nodes && addThis in s.nodes && (s.parent[addThis] != null ==> s.parent[addThis] in s.nodes)
      ensures ShapeOf(live) == Inserted(Detached(s, addThis), self, addThis, |Detached(s, addThis).kids[self]|)
      ensures Booked(Detached(s, addThis), {addThis}, {})
    {
      hide ShapeOf, Booked, Rooted, Detached, Inserted, Ready;
      TakeOut(self, addThis, s, up);
      LinkEnd(self, addThis, live);
    }

    /** InsertChildPreamble, and what the ends of the list look like where the node is going to be. */
    method TakeOut(self: XMLNode, addThis: XMLNode, ghost s: Shape, ghost up: map<XMLNode, nat>)
      requires Valid() && s == ShapeOf(live) && Ready(s, up, self, addThis)
      modifies this`unlinked, this`untracked, this`waiting
      modifies Around(addThis)
      ensures Ready(s, up, self, addThis) && Whole(s) && s.nodes == live && self in live && addThis in live && addThis != self
      ensures (s.parent[addThis] != null ==> s.parent[addThis] in live) && addThis.parent == null && Rooted()
      ensures ShapeOf(live) == Detached(s, addThis) && self.kids == Detached(s, addThis).kids[self] && Booked(Detached(s, addThis), {addThis}, {})
      ensures self.lastChild in {old(self.lastChild), null, old(addThis.prev)}
      ensures self.firstChild in {old(self.firstChild), null, old(addThis.next)}
      ensures self.lastChild == (if self.kids == [] then null else self.kids[|self.kids| - 1])
      ensures self.firstChild == (if self.kids == [] then null else self.kids[0])
      ensures forall i :: 0 <= i < |self.kids| ==> self.kids[i] in live && self.kids[i] != addThis
    {
      hide ShapeOf, Booked, Rooted, Detached, Ready;
      ReadyFacts(s, up, self, addThis);
      FieldsOf(live, self);
      FieldsOf(live, addThis);
      EndsNearby(s, self, addThis);
      InsertChildPreamble(addThis);
      FieldsOf(live, self);
      EndsOf(self, addThis);
    }

    /** The end of every insertion: the ranks and the books are put in order. */
    ghost method Linked(s: Shape, up: map<XMLNode, nat>, p: XMLNode, x: XMLNode, k: nat)
      requires Ready(s, up, p, x) && rank == up && Whole(s) && p in s.nodes && x in s.nodes && (s.parent[x] != null ==> s.parent[x] in s.nodes)
      requires k <= |Detached(s, x).kids[p]|
      requires ShapeOf(live) == Inserted(Detached(s, x), p, x, k) && Booked(Detached(s, x), {x}, {})
      modifies this`rank
      ensures Valid() && ShapeOf(live) == Moved(s, p, x, k)
    {
      hide Forest, Above, ShapeOf, Detached, Moved, Booked, Rooted;
      MovedIs(s, p, x, k);
      MovedIsForest(s, up, p, x, k);
      rank := Lifted(up, Above(s, up, p), up[x]);
      AfterInsert(s, up, p, x, k);
      NothingLoose(Detached(s, x), p, x, k);
    }

    method InsertFirstChild(self: XMLNode, addThis: XMLNode) returns (r: XMLNode?)
      requires Valid() && self in live && Insertable(self, addThis)
      modifies this`unlinked, this`untracked, this`waiting, this`rank, self`firstChild, self`lastChild, self`kids, Or(self.firstChild, self)`prev
      modifies Around(addThis)
      ensures addThis.document != id ==> r == null && unchanged(this) && unchanged(live)
      ensures addThis.document == id ==>
                var s := old(ShapeOf(live));
                r == addThis && Ready(s, old(rank), self, addThis) && ShapeOf(live) == Moved(s, self, addThis, 0)
      ensures addThis.document == id ==> addThis.parent == self && StandsAt(old(self.kids), self.kids, addThis, 0)
      ensures Valid()
    {
      hide ShapeOf, Above, Kept, Rooted, Detached, Moved, Ready, StandsAt;
      if addThis.document != id {
        return null;
      }
      BeforeInsert(self, addThis);
      ghost var s, up, before := ShapeOf(live), rank, self.kids;
      ReadyFacts(s, up, self, addThis);
      FieldsOf(live, self);
      PrependOwn(self, addThis);
      NowThere(self, addThis, 0, s, up, before);
      return addThis;
    }

    method PrependOwn(self: XMLNode, addThis: XMLNode)
      requires Valid() && Ready(ShapeOf(live), rank, self, addThis)
      modifies this`unlinked, this`untracked, this`waiting, this`rank, self`firstChild, self`lastChild, self`kids, Or(self.firstChild, self)`prev
      modifies Around(addThis)
      ensures Valid()
      ensures var s := old(ShapeOf(live)); Ready(s, old(rank), self, addThis) && ShapeOf(live) == Moved(s, self, addThis, 0)
    {
      hide ShapeOf, Booked, Rooted, Detached, Inserted, Moved, Ready;
      ghost var s, up := ShapeOf(live), rank;
      TakeOut(self, addThis, s, up);
      LinkFirst(self, addThis, live);
      Linked(s, up, self, addThis, 0);
    }

    /** InsertAfterChild reads `afterThis->_next->_prev` after taking the added node out of its place. That is a null dereference
        exactly when the added node was the last child and stood directly behind `afterThis`; the model stops there. */
    method InsertAfterChild(self: XMLNode, afterThis: XMLNode, addThis: XMLNode) returns (r: Insertion)
      requires Valid() && self in live && afterThis in live && Insertable(self, addThis)
      modifies this`unlinked, this`untracked, this`waiting, this`rank, self`firstChild, self`lastChild, self`kids, Or(self.lastChild, self)`next
      modifies Around(addThis), Or(afterThis.next, self)`prev, afterThis`next
      ensures r == Refused <==> addThis.document != id || old(afterThis.parent) != self
      ensures r == NullDereference <==>
                && addThis.document == id && old(afterThis.parent) == self && afterThis != addThis
                && old(afterThis.next) == addThis && old(addThis.next) == null
      ensures r == Refused || (r == Added && afterThis == addThis) ==> unchanged(this) && unchanged(live)
      ensures r == Added && afterThis != addThis ==>
                var s := old(ShapeOf(live));
                && Ready(s, old(rank), self, addThis) && afterThis in Detached(s, addThis).kids[self]
                && ShapeOf(live) == Moved(s, self, addThis, IndexIn(Detached(s, addThis).kids[self], afterThis) + 1)
      ensures r == Added && afterThis != addThis ==> addThis.parent == self && StandsBehind(old(self.kids), self.kids, afterThis, addThis)
      ensures r != NullDereference ==> Valid()
    {
      hide ShapeOf, Above, Kept, Rooted, Detached, Moved, Ready, StandsBehind;
      if addThis.document != id {
        return Refused;
      }
      if afterThis.parent != self {
        return Refused;
      }
      if afterThis == addThis {
        return Added;
      }
      BeforeInsert(self, addThis);
      r := InsertOwn(self, afterThis, addThis);
    }

    method InsertOwn(self: XMLNode, afterThis: XMLNode, addThis: XMLNode) returns (r: Insertion)
      requires Valid() && Ready(ShapeOf(live), rank, self, addThis) && afterThis in live && afterThis != addThis && afterThis.parent == self
      modifies this`unlinked, this`untracked, this`waiting, this`rank, self`firstChild, self`lastChild, self`kids, Or(self.lastChild, self)`next
      modifies Around(addThis), Or(afterThis.next, self)`prev, afterThis`next
      ensures r == (if old(afterThis.next) == addThis && old(addThis.next) == null then NullDereference else Added)
      ensures r == Added ==>
                var s := old(ShapeOf(live));
                && Ready(s, old(rank), self, addThis) && afterThis in Detached(s, addThis).kids[self]
                && ShapeOf(live) == Moved(s, self, addThis, IndexIn(Detached(s, addThis).kids[self], afterThis) + 1)
      ensures r == Added ==> Valid() && addThis.parent == self && StandsBehind(old(self.kids), self.kids, afterThis, addThis)
    {
      hide ShapeOf, Above, Kept, Rooted, Detached, Moved, Ready, StandsBehind;
      ghost var s, up, before := ShapeOf(live), rank, self.kids;
      ReadyFacts(s, up, self, addThis);
      FieldsOf(live, self);
      if afterThis.next == null {
        LastOne(self, afterThis, addThis);
        AppendOwn(self, addThis);
        NowBehind(self, afterThis, addThis, s, up, before);
        return Added;
      }
      r := InsertBehind(self, afterThis, addThis);
      if r == Added {
        NowBehind(self, afterThis, addThis, s, up, before);
      }
    }

    lemma NowBehind(self: XMLNode, a: XMLNode, x: XMLNode, s: Shape, up: map<XMLNode, nat>, before: seq<XMLNode>)
      requires Ready(s, up, self, x) && Whole(s) && self in s.nodes && x in s.nodes && (s.parent[x] != null ==> s.parent[x] in s.nodes)
      requires var kids := Detached(s, x).kids[self]; a in kids && ShapeOf(live) == Moved(s, self, x, IndexIn(kids, a) + 1)
      requires before == s.kids[self]
      ensures x.parent == self && StandsBehind(before, self.kids, a, x)
    {
      hide Forest, ShapeOf, Detached, Moved, Above, StandsAt, IndexIn;
      var kids := Detached(s, x).kids[self];
      var i := IndexIn(kids, a);
      NowThere(self, x, i + 1, s, up, before);
      assert self.kids[..i + 1][i] == kids[..i + 1][i] == a;
    }

    method InsertBehind(self: XMLNode, afterThis: XMLNode, addThis: XMLNode) returns (r: Insertion)
      requires Valid() && Ready(ShapeOf(live), rank, self, addThis) && afterThis in live && afterThis != addThis
      requires afterThis.parent == self && afterThis.next != null
      modifies this`unlinked, this`untracked, this`waiting, this`rank, self`kids, Around(addThis), Or(afterThis.next, self)`prev, afterThis`next
      ensures r == (if old(afterThis.next) == addThis && old(addThis.next) == null then NullDereference else Added)
      ensures r == Added ==>
                var s := old(ShapeOf(live));
                && Ready(s, old(rank), self, addThis) && afterThis in Detached(s, addThis).kids[self]
                && ShapeOf(live) == Moved(s, self, addThis, IndexIn(Detached(s, addThis).kids[self], afterThis) + 1)
      ensures r == Added ==> Valid()
    {
      hide ShapeOf, Booked, Rooted, Detached, Inserted, Moved, Ready;
      ghost var s, up := ShapeOf(live), rank;
      BehindFacts(self, afterThis, addThis);
      TakeOut(self, addThis, s, up);
      FieldsOf(live, afterThis);
      if afterThis.next == null {
        return NullDereference;
      }
      LinkBehind(self, afterThis, addThis, s, up);
      return Added;
    }

    method LinkBehind(self: XMLNode, afterThis: XMLNode, addThis: XMLNode, ghost s: Shape, ghost up: map<XMLNode, nat>)
      requires Ready(s, up, self, addThis) && Whole(s) && s.nodes == live && self in live && addThis in live && addThis != self && rank == up
      requires (s.parent[addThis] != null ==> s.parent[addThis] in live) && Rooted()
      requires ShapeOf(live) == Detached(s, addThis) && Booked(Detached(s, addThis), {addThis}, {})
      requires forall i :: 0 <= i < |self.kids| ==> self.kids[i] in live && self.kids[i] != addThis
      requires afterThis in live && afterThis != addThis && afterThis.parent == self && afterThis.next != null
      modifies this`rank, self`kids, addThis, Or(afterThis.next, self)`prev, afterThis`next
      ensures Valid() && afterThis in Detached(s, addThis).kids[self]
      ensures ShapeOf(live) == Moved(s, self, addThis, IndexIn(Detached(s, addThis).kids[self], afterThis) + 1)
    {
      hide ShapeOf, Booked, Rooted, Detached, Inserted, Moved, Ready, IndexIn, Whole;
      FindBehind(self, afterThis);
      ghost var i := IndexIn(self.kids, afterThis);
      LinkAfter(self, afterThis, addThis, i, live);
      Linked(s, up, self, addThis, i + 1);
    }

    lemma FindBehind(self: XMLNode, a: XMLNode)
      requires Rooted() && self in live && a in live && a.parent == self && a.next != null
      ensures self.kids == ShapeOf(live).kids[self] && a in self.kids
      ensures var i := IndexIn(self.kids, a);
              i + 1 < |self.kids| && self.kids[i] == a && a.next == self.kids[i + 1] && self.kids[i + 1] in live && self.kids[i + 1] != a
    {
      hide ShapeOf, Chain, Hangs, Ranked;
      FieldsOf(live, a);
      FieldsOf(live, self);
      PlaceBehind(ShapeOf(live), rank, self, a);
    }

    lemma BehindFacts(self: XMLNode, a: XMLNode, x: XMLNode)
      requires Ready(ShapeOf(live), rank, self, x) && a in live && a != x && a.parent == self && a.next != null
      ensures var s := ShapeOf(live);
              && Whole(s) && a in s.nodes && x in s.nodes && (s.parent[x] != null ==> s.parent[x] in s.nodes)
              && (Detached(s, x).next[a] == null <==> a.next == x && x.next == null) && Detached(s, x).parent[a] == self
              && Detached(s, x).next[a] in {a.next, x.next}
    {
      hide Forest, ShapeOf, Detached, Above;
      FieldsOf(live, a);
      FieldsOf(live, x);
      NothingBehind(ShapeOf(live), rank, a, x);
    }

    lemma LastOne(self: XMLNode, a: XMLNode, x: XMLNode)
      requires Ready(ShapeOf(live), rank, self, x) && a in live && a != x && a.parent == self && a.next == null
      ensures var s := ShapeOf(live);
              && Whole(s) && self in s.nodes && x in s.nodes && (s.parent[x] != null ==> s.parent[x] in s.nodes)
              && var kids := Detached(s, x).kids[self]; a in kids && IndexIn(kids, a) + 1 == |kids|
    {
      hide Forest, ShapeOf, Detached, Above;
      FieldsOf(live, a);
      LastPlace(ShapeOf(live), rank, self, a, x);
    }

    lemma MovedIs(s: Shape, p: XMLNode, x: XMLNode, k: nat)
      requires Whole(s) && p in s.nodes && x in s.nodes && (s.parent[x] != null ==> s.parent[x] in s.nodes)
      requires k <= |Detached(s, x).kids[p]|
      ensures Moved(s, p, x, k) == Inserted(Detached(s, x), p, x, k)
    {
    }

    lemma NothingLoose(s: Shape, p: XMLNode, x: XMLNode, k: nat)
      requires Booked(s, {x}, {}) && Whole(s) && p in s.nodes && x in s.nodes && k <= |s.kids[p]|
      ensures Booked(Inserted(s, p, x, k), {}, {})
    {
      hide Hanging, Counted, NoneTwice, Inserted, Elements, Split;
      HangingInserted(s, node, p, x, k);
    }

    // ---------- creating and deleting ----------

    function PoolOf(payload: Payload): (r: Pool)
      ensures r == TextPool <==> payload.TextNode?
      ensures r == CommentPool <==> payload.CommentNode? || payload.DeclarationNode? || payload.UnknownNode?
    {
      match payload
      case DocumentNode => ElementPool
      case ElementNode(_, _) => ElementPool
      case TextNode(_, _) => TextPool
      case CommentNode(_) => CommentPool
      case DeclarationNode(_) => CommentPool
      case UnknownNode(_) => CommentPool
    }

    lemma GrownShape(L: set<XMLNode>, n: XMLNode)
      requires n !in L && n.kids == []
      requires n.parent == null && n.firstChild == null && n.lastChild == null && n.prev == null && n.next == null
      ensures Whole(ShapeOf(L)) && ShapeOf(L + {n}) == WithNode(ShapeOf(L), n)
    {
      hide Parents, Firsts, Lasts, Prevs, Nexts, AllKids, Whole;
      ShapeFields(L);
      GrownMaps(L, n);
    }

    lemma GrownMaps(L: set<XMLNode>, n: XMLNode)
      requires n !in L && n.kids == []
      requires n.parent == null && n.firstChild == null && n.lastChild == null && n.prev == null && n.next == null
      ensures Parents(L + {n}) == Parents(L)[n := null] && Firsts(L + {n}) == Firsts(L)[n := null] && Lasts(L + {n}) == Lasts(L)[n := null]
      ensures Prevs(L + {n}) == Prevs(L)[n := null] && Nexts(L + {n}) == Nexts(L)[n := null] && AllKids(L + {n}) == AllKids(L)[n := []]
    {
    }

    /** A new node: allocated from its pool, and hanging nowhere until it is inserted. */
    method CreateUnlinkedNode(payload: Payload) returns (n: XMLNode)
      requires Valid() && !payload.DocumentNode?
      modifies this`unlinked, this`untracked, this`waiting, this`currentAllocs, this`live, this`rank
      ensures Valid() && fresh(n) && n.payload == payload && n.document == id && live == old(live) + {n} && n.kids == [] && n.parent == null
      ensures unlinked == old(unlinked) + [n] && rank == old(rank)[n := 0]
      ensures n.pool == PoolOf(payload)
      ensures Whole(old(ShapeOf(live))) && ShapeOf(live) == WithNode(old(ShapeOf(live)), n)
    {
      hide Forest, ShapeOf, Booked, WithNode, PoolOf, Whole;
      n := new XMLNode(id, PoolOf(payload), payload);
      ghost var s := ShapeOf(live);
      FieldsOf(live, node);
      GrownShape(live, n);
      WithNodeIsForest(s, rank, n);
      ListedBefore(n);
      Enroll(n, s);
      live, rank := live + {n}, rank[n := 0];
    }

    /** The new node is counted, and listed as one that hangs nowhere. */
    method Enroll(n: XMLNode, ghost s: Shape)
      requires Booked(s, {}, {}) && n !in s.nodes && n !in unlinked && n != node && node in s.nodes
      modifies this`unlinked, this`untracked, this`waiting, this`currentAllocs
      ensures Booked(WithNode(s, n), {}, {}) && unlinked == old(unlinked) + [n]
    {
      hide Counted, Hanging, Elements, NoneTwice, Split;
      BooksMore(s, n);
      currentAllocs := currentAllocs[n.pool := currentAllocs[n.pool] + 1];
      Count(n.pool, 1);
      unlinked := unlinked + [n];
    }

    lemma ListedBefore(n: XMLNode)
      requires Kept({}, {}) && n !in live
      ensures n !in unlinked
    {
      hide Counted, NoneTwice, ShapeOf, Split;
      ShapeFields(live);
      assert n in unlinked ==> n in Elements(unlinked) + {};
    }

    /** The books with a new node in them. */
    lemma BooksMore(s: Shape, n: XMLNode)
      requires Booked(s, {}, {}) && n !in s.nodes && n !in unlinked && n != node && node in s.nodes
      ensures n.pool in waiting && n.pool in currentAllocs && NoneTwice(unlinked + [n])
      ensures Elements(unlinked + [n]) + {} == Hanging(WithNode(s, n), node)
      ensures Counted(waiting[n.pool := waiting[n.pool] + 1], Elements(unlinked + [n]) - {})
      ensures Counted(currentAllocs[n.pool := currentAllocs[n.pool] + 1], WithNode(s, n).nodes - {node})
    {
      hide Counted, Hanging, Elements, NoneTwice, WithNode, Split;
      ListedMore(s, n, unlinked, node);
      CountedMore(waiting, Elements(unlinked), n);
      CountedMore(currentAllocs, s.nodes - {node}, n);
    }

    lemma ListedMore(s: Shape, n: XMLNode, list: seq<XMLNode>, node: XMLNode)
      requires Whole(s) && n !in s.nodes && n !in list && n != node && NoneTwice(list) && node in s.nodes
      ensures NoneTwice(list + [n]) && Elements(list + [n]) == Elements(list) + {n} && n !in Elements(list)
      ensures Hanging(WithNode(s, n), node) == Hanging(s, node) + {n}
      ensures Elements(list) - {} == Elements(list) && Elements(list) + {} == Elements(list)
      ensures (s.nodes + {n}) - {node} == (s.nodes - {node}) + {n} && n !in s.nodes - {node}
      ensures Elements(list + [n]) - {} == Elements(list + [n]) && Elements(list + [n]) + {} == Elements(list + [n])
    {
    }

    /** The destructor's end and MemPool::Free: a node that has no links left. */
    method Free(n: XMLNode, ghost loose: set<XMLNode>)
      requires Rooted() && Kept(loose, {}) && n in loose && n in live && n != node && n.parent == null && n.kids == []
      modifies this`currentAllocs, this`live, this`freed
      ensures Rooted() && Kept(loose - {n}, {}) && live == old(live) - {n} && freed == old(freed) + {n}
      ensures Pruned(old(ShapeOf(live)), ShapeOf(live), {n})
    {
      hide Forest, ShapeOf, Counted, Hanging, Elements, NoneTwice, Pruned, Whole, Split;
      FieldsOf(live, n);
      FieldsOf(live, node);
      ShrunkShape(live, n);
      LeafGone(ShapeOf(live), ShapeOf(live - {n}), rank, n);
      HangingLess(ShapeOf(live), ShapeOf(live - {n}), node, n);
      CountedLess(currentAllocs, live - {node}, n);
      OneLess(Elements(unlinked), loose, live, node, n);
      FieldsOf(live - {n}, node);
      currentAllocs := currentAllocs[n.pool := currentAllocs[n.pool] - 1];
      live, freed := live - {n}, freed + {n};
    }

    lemma ShrunkShape(L: set<XMLNode>, n: XMLNode)
      requires n in L
      ensures Pruned(ShapeOf(L), ShapeOf(L - {n}), {n})
    {
      hide ShapeOf;
      ShapeFields(L);
      ShapeFields(L - {n});
      forall m | m in L - {n}
        ensures SameAt(ShapeOf(L), ShapeOf(L - {n}), m)
      {
        FieldsOf(L, m);
        FieldsOf(L - {n}, m);
      }
    }

    lemma HangingLess(s: Shape, t: Shape, node: XMLNode, n: XMLNode)
      requires Pruned(s, t, {n}) && n in s.nodes
      ensures Hanging(t, node) == Hanging(s, node) - {n}
    {
      forall m | m in t.nodes
        ensures t.parent[m] == s.parent[m]
      {
        assert SameAt(s, t, m);
      }
    }

    lemma OneLess(listed: set<XMLNode>, loose: set<XMLNode>, L: set<XMLNode>, node: XMLNode, n: XMLNode)
      requires listed !! loose && n in loose
      ensures listed + (loose - {n}) == (listed + loose) - {n} && listed !! (loose - {n})
      ensures (L - {n}) - {node} == (L - {node}) - {n}
    {
    }

    /** XMLNode::DeleteNode, for a node that hangs nowhere: all that is below it goes first. */
    method DeleteUnlinked(n: XMLNode, ghost loose: set<XMLNode>)
      requires Rooted() && n in live && n != node && n.parent == null && n !in loose
      requires Booked(ShapeOf(live), loose + {n}, {}) || Booked(ShapeOf(live), loose, {n})
      modifies this`unlinked, this`currentAllocs, this`live, this`freed, live
      ensures Rooted() && Kept(loose, {}) && live <= old(live) && n !in live && freed == old(freed) + (old(live) - live)
      ensures Pruned(old(ShapeOf(live)), ShapeOf(live), old(live) - live) && Severed(old(ShapeOf(live)), n, old(live) - live)
      decreases Height(rank, n), 2
    {
      hide Forest, ShapeOf, Booked, Pruned, Severed, Whole, Bared, Rooted;
      ghost var s, L := ShapeOf(live), live;
      FieldsOf(live, n);
      ListedOrLoose(n, loose);
      MarkInUse(n);
      NowLoose(s, n, loose, old(unlinked));
      DeleteChildren(n, loose + {n});
      ghost var t := ShapeOf(live);
      FieldsOf(live, n);
      BaredRoot(s, t, n);
      Free(n, loose + {n});
      assert loose + {n} - {n} == loose;
      ShapeFields(live);
      BaredThenFree(s, t, ShapeOf(live), n);
    }

    /** The node is in the list, paid for, or it is a loose one. */
    ghost predicate InEither(s: Shape, n: XMLNode, loose: set<XMLNode>, list: seq<XMLNode>)
      reads `untracked, `waiting, `lost, `currentAllocs
    {
      && Whole(s) && NoneTwice(list) && Elements(list) !! loose && Elements(list) + loose + {n} == Hanging(s, node)
      && Counted(waiting, Elements(list) - {n}) && Counted(currentAllocs, s.nodes - {node}) && Split()
    }

    lemma ListedOrLoose(n: XMLNode, loose: set<XMLNode>)
      requires n in live && n != node && n.parent == null && n !in loose
      requires Booked(ShapeOf(live), loose + {n}, {}) || Booked(ShapeOf(live), loose, {n})
      ensures NoneTwice(unlinked) && InEither(ShapeOf(live), n, loose, unlinked)
    {
      hide Hanging, Elements, NoneTwice, Counted, ShapeOf, Split;
      FieldsOf(live, n);
      HangsThere(ShapeOf(live), node, n);
      var listed := Elements(unlinked);
      assert Booked(ShapeOf(live), loose + {n}, {}) ==> listed - {} == listed - {n};
    }

    lemma NowLoose(s: Shape, n: XMLNode, loose: set<XMLNode>, list: seq<XMLNode>)
      requires InEither(s, n, loose, list) && n !in loose && NoneTwice(unlinked) && Elements(unlinked) == Elements(list) - {n}
      ensures Booked(s, loose + {n}, {})
    {
      hide Hanging, Elements, NoneTwice, Counted, Whole, Split;
      var listed := Elements(list);
      assert listed - {n} - {} == listed - {n} && (listed - {n}) + (loose + {n}) == listed + loose + {n};
    }

    lemma BaredRoot(s: Shape, t: Shape, n: XMLNode)
      requires Bared(s, t, n)
      ensures n in s.parent && n in t.parent && n in t.kids && t.parent[n] == s.parent[n] && t.kids[n] == []
    {
    }

    lemma BaredThenFree(s: Shape, t: Shape, u: Shape, n: XMLNode)
      requires Bared(s, t, n) && Pruned(t, u, {n}) && n in s.nodes && n in s.parent && s.parent[n] == null
      ensures Pruned(s, u, s.nodes - u.nodes) && Severed(s, n, s.nodes - u.nodes)
    {
      forall m | m in u.nodes
        ensures m in s.nodes && m in t.nodes && SameAt(s, u, m)
      {
        assert SameAt(t, u, m) && SameAt(s, t, m);
      }
    }

    /** XMLNode::DeleteChildren. */
    method DeleteChildren(n: XMLNode, ghost loose: set<XMLNode>)
      requires Rooted() && Kept(loose, {}) && n in live
      modifies this`unlinked, this`currentAllocs, this`live, this`freed, live
      ensures Rooted() && Kept(loose, {}) && live <= old(live) && n in live && freed == old(freed) + (old(live) - live)
      ensures Bared(old(ShapeOf(live)), ShapeOf(live), n)
      decreases Height(rank, n), 1
    {
      hide Forest, ShapeOf, Booked, Remains, Bared, Whole, Pruned, Severed, Unlinked, Rooted;
      ghost var s, L := ShapeOf(live), live;
      ShapeFields(live);
      NothingGoneYet(s, n);
      FirstIs(n);
      while n.firstChild != null
        invariant Rooted() && Kept(loose, {}) && live <= L && n in live && freed == old(freed) + (L - live)
        invariant Remains(s, ShapeOf(live), n) && n.kids == AllKids(live)[n]
        invariant n.firstChild == (if n.kids == [] then null else n.kids[0])
        invariant n.kids != [] ==> n.kids[0] in live && n.kids[0].parent == n
        decreases |n.kids|
      {
        ghost var t, T, c := ShapeOf(live), live, n.firstChild;
        FieldsOf(live, n);
        FieldsOf(live, c);
        DeleteChild(n, n.firstChild, loose);
        assert freed == old(freed) + (L - T) + (T - live) == old(freed) + (L - live);
        RootedFacts(n);
        OneGone(s, t, ShapeOf(live), n, c, T - live);
        FirstIs(n);
        FieldsOf(live, n);
      }
      RootedFacts(n);
      FieldsOf(live, n);
      AllGone(s, ShapeOf(live), rank, n);
    }

    lemma OneGone(s: Shape, t: Shape, u: Shape, n: XMLNode, c: XMLNode, r: set<XMLNode>)
      requires Remains(s, t, n) && Forest(t, rank) && n in t.kids && t.kids[n] != [] && t.kids[n][0] == c && Whole(t) && c in t.nodes && t.parent[c] == n
      requires Severed(t, c, r) && n !in r && n in t.nodes && Pruned(Unlinked(t, c), u, r)
      ensures Remains(s, u, n) && n in u.kids && |u.kids[n]| < |t.kids[n]|
    {
      hide Forest, Remains, Severed, Unlinked;
      OneMoreGone(s, t, u, rank, n, r);
    }

    lemma FirstIs(n: XMLNode)
      requires Rooted() && n in live
      ensures n in AllKids(live) && n.kids == AllKids(live)[n] && n.firstChild == (if n.kids == [] then null else n.kids[0])
      ensures n.kids != [] ==> n.kids[0] in live && n.kids[0].parent == n
    {
      hide ShapeOf, Hangs, Ranked, NoneTwice;
      FieldsOf(live, n);
      ChainOf(ShapeOf(live), rank, n);
      if n.kids != [] {
        assert Placed(ShapeOf(live), n, n.kids, 0);
        FieldsOf(live, n.kids[0]);
      }
    }

    /** XMLNode::DeleteChild. */
    method DeleteChild(self: XMLNode, c: XMLNode, ghost loose: set<XMLNode>)
      requires Rooted() && Kept(loose, {}) && self in live && c in live && c.parent == self
      modifies this`unlinked, this`currentAllocs, this`live, this`freed, live
      ensures Rooted() && Kept(loose, {}) && live <= old(live) && self in live && c !in live && freed == old(freed) + (old(live) - live)
      ensures var s := old(ShapeOf(live));
              && Whole(s) && c in s.nodes && s.parent[c] != null && s.parent[c] in s.nodes && Forest(s, old(rank))
              && Pruned(Unlinked(s, c), ShapeOf(live), old(live) - live) && Severed(s, c, old(live) - live)
      decreases Height(rank, self), 0
    {
      hide Forest, ShapeOf, Booked, Pruned, Severed, Whole, Unlinked, Rooted;
      ghost var s, L := ShapeOf(live), live;
      BeforeDelete(self, c, loose);
      UnlinkFrom(self, c, loose);
      DeleteUnlinked(c, loose);
      CutBack(s, c, L - live);
      CutMisses(s, rank, c, L - live, self);
    }

    lemma BeforeDelete(self: XMLNode, c: XMLNode, loose: set<XMLNode>)
      requires Rooted() && Kept(loose, {}) && self in live && c in live && c.parent == self
      ensures Around(c) <= live && c != node && c !in loose && Height(rank, c) < Height(rank, self)
      ensures var s := ShapeOf(live); Forest(s, rank) && Whole(s) && c in s.nodes && self in s.nodes && s.parent[c] == self
    {
      hide ShapeOf, Elements, Counted, NoneTwice, Chain, Hangs, Split;
      FieldsOf(live, c);
      ChainOf(ShapeOf(live), rank, c);
      InShape(live, rank, c);
      assert c !in Hanging(ShapeOf(live), node);
    }

    lemma CutBack(s: Shape, c: XMLNode, r: set<XMLNode>)
      requires Whole(s) && c in s.nodes && s.parent[c] != null && s.parent[c] in s.nodes && Severed(Unlinked(s, c), c, r)
      ensures Severed(s, c, r)
    {
      hide Unlinked;
      forall m | m in r
        ensures m in s.nodes && (m == c || (s.parent[m] != null && s.parent[m] in r))
      {
        assert m in Unlinked(s, c).nodes;
        UnlinkedRoots(s, c, m);
      }
    }

    /** XMLDocument::DeleteNode: a node that hangs nowhere is counted as tracked before it goes. */
    method DeleteNode(n: XMLNode)
      requires Valid() && n in live && n != node
      modifies this`unlinked, this`untracked, this`waiting, this`currentAllocs, this`live, this`freed, live
      ensures Valid() && live <= old(live) && n !in live && freed == old(freed) + (old(live) - live)
      ensures var s, r := old(ShapeOf(live)), old(live) - live;
              && Whole(s) && n in s.nodes && (s.parent[n] != null ==> s.parent[n] in s.nodes)
              && Pruned(Detached(s, n), ShapeOf(live), r) && Severed(s, n, r)
    {
      hide Forest, ShapeOf, Counted, Hanging, Elements, NoneTwice, Pruned, Severed, Unlinked, Rooted, Split;
      FieldsOf(live, n);
      RootedFacts(n);
      if n.parent != null {
        DeleteChild(n.parent, n, {});
      } else {
        PaidFor(n);
        Count(n.pool, -1);
        DeleteUnlinked(n, {});
      }
    }

    /** XMLNode::DeleteNode as ParseDeep calls it after an error: the node is deleted, but its pool goes on counting it as untracked. */
    method DropNode(n: XMLNode)
      requires Valid() && n in live && n != node && n.parent == null
      modifies this`unlinked, this`waiting, this`lost, this`currentAllocs, this`live, this`freed, live
      ensures Valid() && live <= old(live) && n !in live && freed == old(freed) + (old(live) - live)
      ensures Pruned(old(ShapeOf(live)), ShapeOf(live), old(live) - live) && Severed(old(ShapeOf(live)), n, old(live) - live)
      ensures n.pool in old(lost) && lost == old(lost)[n.pool := old(lost)[n.pool] + 1]
    {
      hide Forest, ShapeOf, Counted, Hanging, Elements, NoneTwice, Pruned, Severed, Unlinked, Rooted;
      PaidFor(n);
      waiting, lost := waiting[n.pool := waiting[n.pool] - 1], lost[n.pool := lost[n.pool] + 1];
      DeleteUnlinked(n, {});
    }

    /** The count is right exactly if nothing has been lost. */
    lemma CountIsRight()
      requires Kept({}, {})
      ensures Counted(untracked, Elements(unlinked)) <==> Total(lost) == 0
    {
      hide Hanging, NoneTwice, ShapeOf;
      assert Elements(unlinked) - {} == Elements(unlinked);
      assert lost[ElementPool] >= 0 && lost[TextPool] >= 0 && lost[CommentPool] >= 0;
      if Counted(untracked, Elements(unlinked)) {
        assert forall k: Pool :: untracked[k] == waiting[k];
      } else {
        var k: Pool :| k in untracked && untracked[k] != waiting[k];
        assert k == ElementPool || k == TextPool || k == CommentPool;
      }
    }

    lemma PaidFor(n: XMLNode)
      requires Kept({}, {}) && n in live && n != node && n.parent == null
      ensures n.pool in waiting && Counted(waiting[n.pool := waiting[n.pool] - 1], Elements(unlinked) - {n})
    {
      hide Counted, Hanging, Elements, NoneTwice, ShapeOf, Split;
      FieldsOf(live, n);
      HangsThere(ShapeOf(live), node, n);
      var listed := Elements(unlinked);
      assert listed - {} == listed && listed + {} == listed;
      CountedLess(waiting, listed, n);
    }

    /** XMLDocument::Clear: first the tree, then the nodes that hang nowhere. Every node is freed, each once. No node is allocated any
        more, and as many are counted as untracked as parsing has lost. */
    method Clear()
      requires Valid()
      modifies this`unlinked, this`untracked, this`waiting, this`currentAllocs, this`live, this`freed, live
      ensures Valid() && live == {node} && node.kids == [] && node.parent == null && unlinked == [] && freed == old(freed) + (old(live) - {node})
      ensures forall k: Pool :: k in currentAllocs && k in untracked && k in lost && currentAllocs[k] == 0 && untracked[k] == lost[k]
    {
      hide Forest, ShapeOf, Booked, Bared, Pruned, Severed, Rooted, Detached;
      ghost var L := live;
      RootIn();
      DeleteChildren(node, {});
      FieldsOf(live, node);
      BaredRoot(old(ShapeOf(live)), ShapeOf(live), node);
      while |unlinked| > 0
        invariant Valid() && node in live && live <= L && freed == old(freed) + (L - live)
        invariant node.kids == []
        decreases |live|
      {
        ghost var T, n := live, unlinked[0];
        ListedHangs();
        FieldsOf(live, node);
        FieldsOf(live, n);
        ghost var s := ShapeOf(live);
        assert s.parent[n] == null;
        DeleteNode(unlinked[0]);
        RootIn();
        FieldsOf(live, node);
        StillBare(s, ShapeOf(live), n, T - live);
        Fewer(live, T, n);
        assert freed == old(freed) + (L - T) + (T - live) == old(freed) + (L - live);
      }
      Emptied();
      RootIn();
    }

    /** The three MemPoolT::Clear behind a failed Parse, when nothing but the document itself is left. */
    method ClearPools()
      requires Valid() && live == {node} && unlinked == []
      modifies this`untracked, this`waiting, this`lost, this`currentAllocs
      ensures Valid() && untracked == waiting == lost == currentAllocs == NO_COUNTS
    {
      hide Forest, ShapeOf, Hanging, NoneTwice, Elements;
      untracked, waiting, lost, currentAllocs := NO_COUNTS, NO_COUNTS, NO_COUNTS, NO_COUNTS;
      NothingCounted();
      ShapeFields(live);
      NobodyListed();
      assert {node} - {node} == {};
    }

    lemma NobodyListed()
      ensures Elements([]) == {} && Elements([]) - {} == {}
    {
    }

    lemma ListedHangs()
      requires Kept({}, {}) && unlinked != []
      ensures unlinked[0] in live && unlinked[0] != node && unlinked[0].parent == null
    {
      hide Counted, NoneTwice, ShapeOf, Split;
      ShapeFields(live);
      var n := unlinked[0];
      assert n in Elements(unlinked);
      assert n in Elements(unlinked) + {};
      assert n in Hanging(ShapeOf(live), node);
      FieldsOf(live, n);
    }

    lemma StillBare(s: Shape, t: Shape, n: XMLNode, r: set<XMLNode>)
      requires Whole(s) && n in s.nodes && s.parent[n] == null && Pruned(Detached(s, n), t, r)
      requires node in s.nodes && node in t.nodes
      ensures node in t.kids && t.kids[node] == s.kids[node]
    {
      assert SameAt(s, t, node);
    }

    lemma Emptied()
      requires Valid() && unlinked == [] && node.kids == []
      ensures live == {node}
      ensures forall k: Pool :: k in currentAllocs && k in untracked && k in lost && currentAllocs[k] == 0 && untracked[k] == lost[k]
    {
      hide ShapeOf, Forest, NoneTwice;
      FieldsOf(live, node);
      var s := ShapeOf(live);
      assert Elements(unlinked) == {} && Hanging(s, node) == {};
      forall n | n in live && s.parent[n] == null
        ensures n == node
      {
        assert n !in Hanging(s, node);
      }
      forall m | m in live
        ensures m == node
      {
        OnlyRoot(s, rank, node, m);
      }
      assert live - {node} == {} && Elements(unlinked) - {} == {};
      forall k: Pool
        ensures OfPool({}, k) == {}
      {
      }
    }

    lemma RootIn()
      requires Rooted()
      ensures node in live && node.parent == null
    {
      hide Forest;
    }

    lemma Fewer(a: set<XMLNode>, b: set<XMLNode>, n: XMLNode)
      requires a <= b && n in b && n !in a
      ensures |a| < |b|
    {
      assert b == a + (b - a) && n in b - a && a !! (b - a);
    }
  }
}
