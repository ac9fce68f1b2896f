/** The links between nodes, as a value: which shapes are forests, and what linking and unlinking does to one. Dom.dfy ties
    tinyxml2's pointer updates to these functions. */
module DomShape {
  import opened XmlSyntax

  datatype Payload =
    | DocumentNode
    | ElementNode(name: string, attrs: seq<Attr>)
    | TextNode(value: string, cdata: bool)
    | CommentNode(value: string)
    | DeclarationNode(value: string)
    | UnknownNode(value: string)

  datatype Pool = ElementPool | TextPool | CommentPool

  class XMLNode {
    const document: int  // which document the node belongs to
    const pool: Pool
    const payload: Payload
    var parent: XMLNode?
    var firstChild: XMLNode?
    var lastChild: XMLNode?
    var prev: XMLNode?
    var next: XMLNode?
    ghost var kids: seq<XMLNode>  // what the links from firstChild to lastChild run through

    constructor (document: int, pool: Pool, payload: Payload)
      ensures this.document == document && this.pool == pool && this.payload == payload && kids == []
      ensures parent == null && firstChild == null && lastChild == null && prev == null && next == null
    {
      this.document, this.pool, this.payload := document, pool, payload;
      parent, firstChild, lastChild, prev, next := null, null, null, null, null;
      kids := [];
    }

    // One assignment each, with its effect on the links of all nodes in L.

    method SetParent(to: XMLNode?, ghost L: set<XMLNode>)
      requires this in L
      modifies this`parent
      ensures parent == to && ShapeOf(L) == old(ShapeOf(L)).(parent := old(ShapeOf(L)).parent[this := to])
    {
      hide Firsts, Lasts, Prevs, Nexts, AllKids;
      ghost var was := Parents(L);
      parent := to;
      assert Parents(L) == was[this := to];
    }

    method SetFirst(to: XMLNode?, ghost L: set<XMLNode>)
      requires this in L
      modifies this`firstChild
      ensures firstChild == to && ShapeOf(L) == old(ShapeOf(L)).(first := old(ShapeOf(L)).first[this := to])
    {
      hide Parents, Lasts, Prevs, Nexts, AllKids;
      ghost var was := Firsts(L);
      firstChild := to;
      assert Firsts(L) == was[this := to];
    }

    method SetLast(to: XMLNode?, ghost L: set<XMLNode>)
      requires this in L
      modifies this`lastChild
      ensures lastChild == to && ShapeOf(L) == old(ShapeOf(L)).(last := old(ShapeOf(L)).last[this := to])
    {
      hide Parents, Firsts, Prevs, Nexts, AllKids;
      ghost var was := Lasts(L);
      lastChild := to;
      assert Lasts(L) == was[this := to];
    }

    method SetPrev(to: XMLNode?, ghost L: set<XMLNode>)
      requires this in L
      modifies this`prev
      ensures prev == to && ShapeOf(L) == old(ShapeOf(L)).(prev := old(ShapeOf(L)).prev[this := to])
    {
      hide Parents, Firsts, Lasts, Nexts, AllKids;
      ghost var was := Prevs(L);
      prev := to;
      assert Prevs(L) == was[this := to];
    }

    method SetNext(to: XMLNode?, ghost L: set<XMLNode>)
      requires this in L
      modifies this`next
      ensures next == to && ShapeOf(L) == old(ShapeOf(L)).(next := old(ShapeOf(L)).next[this := to])
    {
      hide Parents, Firsts, Lasts, Prevs, AllKids;
      ghost var was := Nexts(L);
      next := to;
      assert Nexts(L) == was[this := to];
    }

    ghost method SetKids(to: seq<XMLNode>, L: set<XMLNode>)
      requires this in L
      modifies this`kids
      ensures kids == to && ShapeOf(L) == old(ShapeOf(L)).(kids := old(ShapeOf(L)).kids[this := to])
    {
      hide Parents, Firsts, Lasts, Prevs, Nexts;
      ghost var was := AllKids(L);
      kids := to;
      assert AllKids(L) == was[this := to];
    }
  }

  type Pointers = map<XMLNode, XMLNode?>

  /** The link fields of all nodes of a document, and each node's list of children. */
  datatype Shape = Shape(nodes: set<XMLNode>, parent: Pointers, first: Pointers, last: Pointers, prev: Pointers, next: Pointers,
                         kids: map<XMLNode, seq<XMLNode>>)

  predicate Whole(s: Shape) {
    forall n :: n in s.nodes ==> n in s.parent && n in s.first && n in s.last && n in s.prev && n in s.next && n in s.kids
  }

  // One field of all nodes in L.

  ghost function Parents(L: set<XMLNode>): Pointers
    reads L`parent
  {
    map n | n in L :: n.parent
  }

  ghost function Firsts(L: set<XMLNode>): Pointers
    reads L`firstChild
  {
    map n | n in L :: n.firstChild
  }

  ghost function Lasts(L: set<XMLNode>): Pointers
    reads L`lastChild
  {
    map n | n in L :: n.lastChild
  }

  ghost function Prevs(L: set<XMLNode>): Pointers
    reads L`prev
  {
    map n | n in L :: n.prev
  }

  ghost function Nexts(L: set<XMLNode>): Pointers
    reads L`next
  {
    map n | n in L :: n.next
  }

  ghost function AllKids(L: set<XMLNode>): map<XMLNode, seq<XMLNode>>
    reads L`kids
  {
    map n | n in L :: n.kids
  }

  ghost function ShapeOf(L: set<XMLNode>): Shape
    reads L
  {
    Shape(L, Parents(L), Firsts(L), Lasts(L), Prevs(L), Nexts(L), AllKids(L))
  }

  lemma ShapeFields(L: set<XMLNode>)
    ensures var s := ShapeOf(L); Whole(s) && s.nodes == L
  {
  }

  lemma FieldsOf(L: set<XMLNode>, n: XMLNode)
    requires n in L
    ensures var s := ShapeOf(L);
            && Whole(s) && s.nodes == L && n.parent == s.parent[n] && n.firstChild == s.first[n] && n.lastChild == s.last[n]
            && n.prev == s.prev[n] && n.next == s.next[n] && n.kids == s.kids[n]
  {
  }

  function Before(kids: seq<XMLNode>, i: nat): XMLNode?
    requires i < |kids|
  {
    if i == 0 then null else kids[i - 1]
  }

  function Behind(kids: seq<XMLNode>, i: nat): XMLNode?
    requires i < |kids|
  {
    if i == |kids| - 1 then null else kids[i + 1]
  }

  predicate NoneTwice(kids: seq<XMLNode>) {
    forall i, j :: 0 <= i < j < |kids| ==> kids[i] != kids[j]
  }

  predicate Placed(s: Shape, n: XMLNode, kids: seq<XMLNode>, i: nat)
    requires Whole(s) && i < |kids|
  {
    kids[i] in s.nodes && s.parent[kids[i]] == n && s.prev[kids[i]] == Before(kids, i) && s.next[kids[i]] == Behind(kids, i)
  }

  /** The links of a parent and its children agree with the list of children. */
  predicate Chain(s: Shape, n: XMLNode)
    requires Whole(s) && n in s.nodes
  {
    var kids := s.kids[n];
    && s.first[n] == (if kids == [] then null else kids[0]) && s.last[n] == (if kids == [] then null else kids[|kids| - 1])
    && NoneTwice(kids) && forall i :: 0 <= i < |kids| ==> Placed(s, n, kids, i)
  }

  /** A node without a parent has no siblings either, any other is among its parent's children. */
  predicate Hangs(s: Shape, n: XMLNode)
    requires Whole(s) && n in s.nodes
  {
    if s.parent[n] == null then s.prev[n] == null && s.next[n] == null
    else s.parent[n] in s.nodes && n in s.kids[s.parent[n]]
  }

  /** Every parent ranks above its children, so that no node is below itself. */
  predicate Ranked(s: Shape, n: XMLNode, rank: map<XMLNode, nat>)
    requires Whole(s) && n in s.nodes
  {
    n in rank && (s.parent[n] != null ==> s.parent[n] in rank && rank[n] < rank[s.parent[n]])
  }

  function Height(rank: map<XMLNode, nat>, n: XMLNode): nat {
    if n in rank then rank[n] else 0
  }

  predicate Forest(s: Shape, rank: map<XMLNode, nat>) {
    Whole(s) && forall n :: n in s.nodes ==> Chain(s, n) && Hangs(s, n) && Ranked(s, n, rank)
  }

  function Removed(s: seq<XMLNode>, x: XMLNode): (r: seq<XMLNode>)
    ensures x !in s ==> r == s
  {
    if s == [] then [] else if s[0] == x then s[1..] else [s[0]] + Removed(s[1..], x)
  }

  lemma {:induction false} RemovedAt(s: seq<XMLNode>, i: nat)
    requires i < |s| && NoneTwice(s)
    ensures Removed(s, s[i]) == s[..i] + s[i + 1..]
  {
    if i > 0 {
      assert s[0] != s[i];
      RemovedAt(s[1..], i - 1);
      assert s[1..][..i - 1] == s[1..i] && s[..i] == [s[0]] + s[1..i] && s[1..][i..] == s[i + 1..];
    }
  }

  /** A child at its place. */
  predicate At(s: Shape, c: XMLNode, p: XMLNode, i: nat)
    requires Whole(s)
  {
    && c in s.nodes && p in s.nodes && c != p && s.parent[c] == p && i < |s.kids[p]| && s.kids[p][i] == c
    && s.prev[c] == Before(s.kids[p], i) && s.next[c] == Behind(s.kids[p], i)
    && (s.prev[c] != null ==> s.prev[c] in s.nodes && s.prev[c] != c && s.parent[s.prev[c]] == p)
    && (s.next[c] != null ==> s.next[c] in s.nodes && s.next[c] != c && s.parent[s.next[c]] == p)
  }

  lemma Place(s: Shape, rank: map<XMLNode, nat>, c: XMLNode) returns (p: XMLNode, i: nat)
    requires Forest(s, rank) && c in s.nodes && s.parent[c] != null
    ensures p == s.parent[c] && At(s, c, p, i)
  {
    p := s.parent[c];
    assert Hangs(s, c) && Chain(s, p) && Ranked(s, c, rank);
    i :| 0 <= i < |s.kids[p]| && s.kids[p][i] == c;
    assert Placed(s, p, s.kids[p], i);
    assert i > 0 ==> Placed(s, p, s.kids[p], i - 1);
    assert i + 1 < |s.kids[p]| ==> Placed(s, p, s.kids[p], i + 1);
  }

  // ---------- unlinking ----------

  function Set(m: Pointers, at: XMLNode?, to: XMLNode?): Pointers {
    if at == null then m else m[at := to]
  }

  /** The assignments of XMLNode::Unlink. */
  function Unlinked(s: Shape, c: XMLNode): (t: Shape)
    requires Whole(s) && c in s.nodes && s.parent[c] != null && s.parent[c] in s.nodes
    ensures t.nodes == s.nodes && Whole(t)
  {
    var p := s.parent[c];
    s.(first := if s.first[p] == c then s.first[p := s.next[c]] else s.first,
       last := if s.last[p] == c then s.last[p := s.prev[c]] else s.last,
       next := Set(s.next, s.prev[c], s.next[c])[c := null],
       prev := Set(s.prev, s.next[c], s.prev[c])[c := null],
       parent := s.parent[c := null],
       kids := s.kids[p := Removed(s.kids[p], c)])
  }

  lemma UnlinkedKids(s: Shape, rank: map<XMLNode, nat>, c: XMLNode, p: XMLNode, i: nat)
    requires Whole(s) && Forest(s, rank) && At(s, c, p, i)
    ensures var kids := s.kids[p]; Removed(kids, c) == kids[..i] + kids[i + 1..] && NoneTwice(Removed(kids, c)) && c !in Removed(kids, c)
  {
    assert Chain(s, p);
    RemovedAt(s.kids[p], i);
  }

  lemma PlaceFacts(s: Shape, c: XMLNode, p: XMLNode, i: nat)
    requires Whole(s) && At(s, c, p, i)
    ensures c in s.nodes && p in s.nodes && s.parent[c] == p
  {
    hide Before, Behind;
  }

  /** The fields of each node behind Unlink. */
  lemma UnlinkedFields(s: Shape, c: XMLNode, p: XMLNode, i: nat, n: XMLNode)
    requires Whole(s) && At(s, c, p, i) && n in s.nodes
    ensures var t := Unlinked(s, c);
            && t.nodes == s.nodes
            && t.parent[n] == (if n == c then null else s.parent[n])
            && t.prev[n] == (if n == c then null else if n == s.next[c] then s.prev[c] else s.prev[n])
            && t.next[n] == (if n == c then null else if n == s.prev[c] then s.next[c] else s.next[n])
            && t.kids[n] == (if n == p then Removed(s.kids[p], c) else s.kids[n])
            && t.first[n] == (if n == p && s.first[p] == c then s.next[c] else s.first[n])
            && t.last[n] == (if n == p && s.last[p] == c then s.prev[c] else s.last[n])
  {
    hide Removed, Before, Behind;
  }

  /** A remaining child of c's parent. */
  lemma UnlinkedSibling(s: Shape, c: XMLNode, p: XMLNode, i: nat, j: nat)
    requires Whole(s) && At(s, c, p, i)
    requires j < |s.kids[p]| && j != i && Placed(s, p, s.kids[p], j) && NoneTwice(s.kids[p])
    ensures var left := s.kids[p][..i] + s.kids[p][i + 1..];
            Placed(Unlinked(s, c), p, left, if j < i then j else j - 1)
  {
    hide Removed, NoneTwice, Unlinked;
    var kids := s.kids[p];
    Different(kids, i, j);
    UnlinkedFields(s, c, p, i, kids[j]);
    Shifted(kids, i, j);
  }

  lemma Different(kids: seq<XMLNode>, i: nat, j: nat)
    requires NoneTwice(kids) && i < |kids| && j < |kids| && i != j
    ensures kids[j] != kids[i] && (0 < i && j != i - 1 ==> kids[j] != kids[i - 1]) && (i + 1 < |kids| && j != i + 1 ==> kids[j] != kids[i + 1])
  {
  }

  lemma Shifted(kids: seq<XMLNode>, i: nat, j: nat)
    requires i < |kids| && j < |kids| && i != j
    ensures var left, k := kids[..i] + kids[i + 1..], if j < i then j else j - 1;
            && k < |left| && left[k] == kids[j]
            && Before(left, k) == (if j == i + 1 then Before(kids, i) else Before(kids, j))
            && Behind(left, k) == (if j + 1 == i then Behind(kids, i) else Behind(kids, j))
  {
  }

  lemma UnlinkedChain(s: Shape, rank: map<XMLNode, nat>, c: XMLNode, p: XMLNode, i: nat)
    requires Whole(s) && Forest(s, rank) && At(s, c, p, i)
    ensures Chain(Unlinked(s, c), p)
  {
    hide Forest, NoneTwice, Removed, Placed, Unlinked;
    var t, kids := Unlinked(s, c), s.kids[p];
    ChainOf(s, rank, p);
    UnlinkedKids(s, rank, c, p, i);
    UnlinkedFields(s, c, p, i, p);
    var left := kids[..i] + kids[i + 1..];
    forall j | 0 <= j < |left|
      ensures Placed(t, p, left, j)
    {
      UnlinkedSibling(s, c, p, i, if j < i then j else j + 1);
    }
    assert kids != [] && (left != [] ==> left[0] == (if i == 0 then kids[1] else kids[0]));
    assert left != [] ==> left[|left| - 1] == (if i == |kids| - 1 then kids[i - 1] else kids[|kids| - 1]);
  }

  lemma ChainOf(s: Shape, rank: map<XMLNode, nat>, n: XMLNode)
    requires Forest(s, rank) && n in s.nodes
    ensures Chain(s, n) && Hangs(s, n) && Ranked(s, n, rank)
  {
  }

  /** A child of any other node. */
  lemma UnlinkedElsewhere(s: Shape, c: XMLNode, p: XMLNode, i: nat, n: XMLNode, kids: seq<XMLNode>, j: nat)
    requires Whole(s) && At(s, c, p, i) && n != p && j < |kids| && Placed(s, n, kids, j)
    ensures Placed(Unlinked(s, c), n, kids, j)
  {
    hide Removed, Before, Behind;
  }

  lemma UnlinkedOther(s: Shape, rank: map<XMLNode, nat>, c: XMLNode, p: XMLNode, i: nat, n: XMLNode)
    requires Whole(s) && Forest(s, rank) && At(s, c, p, i) && n in s.nodes
    ensures n != p ==> Chain(Unlinked(s, c), n)
  {
    hide Forest, Removed, NoneTwice, Placed, Unlinked;
    ChainOf(s, rank, n);
    UnlinkedFields(s, c, p, i, n);
    if n != p {
      forall j | 0 <= j < |s.kids[n]|
        ensures Placed(Unlinked(s, c), n, s.kids[n], j)
      {
        UnlinkedElsewhere(s, c, p, i, n, s.kids[n], j);
      }
    }
  }

  lemma StillIn(kids: seq<XMLNode>, i: nat, n: XMLNode)
    requires i < |kids| && n in kids && n != kids[i]
    ensures n in kids[..i] + kids[i + 1..]
  {
    var j :| 0 <= j < |kids| && kids[j] == n;
    assert j < i ==> kids[..i][j] == n;
    assert j > i ==> kids[i + 1..][j - i - 1] == n;
  }

  lemma UnlinkedHangs(s: Shape, rank: map<XMLNode, nat>, c: XMLNode, p: XMLNode, i: nat, n: XMLNode)
    requires Whole(s) && Forest(s, rank) && At(s, c, p, i) && n in s.nodes
    ensures Hangs(Unlinked(s, c), n) && Ranked(Unlinked(s, c), n, rank)
  {
    hide Forest, Chain, Removed, NoneTwice, Unlinked;
    ChainOf(s, rank, n);
    UnlinkedKids(s, rank, c, p, i);
    UnlinkedFields(s, c, p, i, n);
    UnlinkedFields(s, c, p, i, p);
    if s.parent[n] != null {
      UnlinkedFields(s, c, p, i, s.parent[n]);
    }
    if n != c && s.parent[n] == p {
      StillIn(s.kids[p], i, n);
    }
  }

  lemma UnlinkedIsForest(s: Shape, rank: map<XMLNode, nat>, c: XMLNode)
    requires Forest(s, rank) && c in s.nodes && s.parent[c] != null
    ensures s.parent[c] in s.nodes && Forest(Unlinked(s, c), rank)
  {
    hide Chain, Hangs, Ranked, Placed, Whole, NoneTwice, Removed, Unlinked, At;
    var p, i := Place(s, rank, c);
    PlaceFacts(s, c, p, i);
    forall n | n in s.nodes
      ensures Chain(Unlinked(s, c), n) && Hangs(Unlinked(s, c), n) && Ranked(Unlinked(s, c), n, rank)
    {
      UnlinkedOther(s, rank, c, p, i, n);
      UnlinkedHangs(s, rank, c, p, i, n);
      UnlinkedChain(s, rank, c, p, i);
    }
  }

  // ---------- linking ----------

  function InsertAt(kids: seq<XMLNode>, k: nat, x: XMLNode): seq<XMLNode>
    requires k <= |kids|
  {
    kids[..k] + [x] + kids[k..]
  }

  /** A node without parent becomes child number k of `p`. */
  function Inserted(s: Shape, p: XMLNode, x: XMLNode, k: nat): (t: Shape)
    requires Whole(s) && p in s.nodes && x in s.nodes && k <= |s.kids[p]|
    ensures t.nodes == s.nodes && Whole(t)
  {
    var kids := s.kids[p];
    var before: XMLNode? := if k == 0 then null else kids[k - 1];
    var behind: XMLNode? := if k == |kids| then null else kids[k];
    var first := if k == 0 then s.first[p := x] else s.first;
    var last := if k == |kids| then s.last[p := x] else s.last;
    s.(first := first, last := last, next := Set(s.next, before, x)[x := behind], prev := Set(s.prev, behind, x)[x := before],
       parent := s.parent[x := p], kids := s.kids[p := InsertAt(kids, k, x)])
  }

  /** `x` hangs nowhere, and is neither `p` nor above it. */
  predicate Fits(s: Shape, p: XMLNode, x: XMLNode, above: set<XMLNode>)
    requires Whole(s)
  {
    && p in s.nodes && x in s.nodes && s.parent[x] == null && p in above && x !in above
    && forall n :: n in above ==> n in s.nodes && (s.parent[n] != null ==> s.parent[n] in above)
  }

  /** Everything from `p` upwards is lifted above the tree of `x`. */
  function Lifted(rank: map<XMLNode, nat>, above: set<XMLNode>, height: nat): map<XMLNode, nat> {
    map n | n in rank :: if n in above then rank[n] + height + 1 else rank[n]
  }

  lemma InsertedFields(s: Shape, p: XMLNode, x: XMLNode, k: nat, n: XMLNode)
    requires Whole(s) && p in s.nodes && x in s.nodes && k <= |s.kids[p]| && n in s.nodes
    ensures var t, kids := Inserted(s, p, x, k), s.kids[p];
            && t.parent[n] == (if n == x then p else s.parent[n])
            && t.prev[n] == (if n == x then (if k == 0 then null else kids[k - 1]) else if k < |kids| && n == kids[k] then x else s.prev[n])
            && t.next[n] == (if n == x then (if k == |kids| then null else kids[k]) else if k > 0 && n == kids[k - 1] then x else s.next[n])
            && t.kids[n] == (if n == p then InsertAt(kids, k, x) else s.kids[n])
            && t.first[n] == (if n == p && k == 0 then x else s.first[n])
            && t.last[n] == (if n == p && k == |kids| then x else s.last[n])
  {
    hide InsertAt;
  }

  lemma Spread(kids: seq<XMLNode>, k: nat, x: XMLNode, j: nat)
    requires k <= |kids| && j < |kids|
    ensures var more, i := InsertAt(kids, k, x), if j < k then j else j + 1;
            && |more| == |kids| + 1 && more[i] == kids[j] && more[k] == x
            && Before(more, i) == (if j == k then x else Before(kids, j))
            && Behind(more, i) == (if j + 1 == k then x else Behind(kids, j))
  {
  }

  lemma SpreadEnds(kids: seq<XMLNode>, k: nat, x: XMLNode)
    requires k <= |kids|
    ensures var more := InsertAt(kids, k, x);
            && |more| == |kids| + 1 && more[k] == x
            && more[0] == (if k == 0 then x else kids[0]) && more[|kids|] == (if k == |kids| then x else kids[|kids| - 1])
            && Before(more, k) == (if k == 0 then null else kids[k - 1]) && Behind(more, k) == (if k == |kids| then null else kids[k])
            && (forall n :: n in more <==> n == x || n in kids)
  {
    var more := InsertAt(kids, k, x);
    assert kids == kids[..k] + kids[k..];
  }

  lemma StillNoneTwice(kids: seq<XMLNode>, k: nat, x: XMLNode)
    requires NoneTwice(kids) && k <= |kids| && x !in kids
    ensures NoneTwice(InsertAt(kids, k, x))
  {
  }

  /** A child of `p` that was there before. */
  lemma InsertedSibling(s: Shape, p: XMLNode, x: XMLNode, k: nat, j: nat)
    requires Whole(s) && p in s.nodes && x in s.nodes && k <= |s.kids[p]| && j < |s.kids[p]| && x !in s.kids[p]
    requires Placed(s, p, s.kids[p], j) && NoneTwice(s.kids[p])
    ensures |InsertAt(s.kids[p], k, x)| == |s.kids[p]| + 1
    ensures Placed(Inserted(s, p, x, k), p, InsertAt(s.kids[p], k, x), if j < k then j else j + 1)
  {
    hide Inserted, InsertAt, NoneTwice;
    var kids := s.kids[p];
    Spread(kids, k, x, j);
    InsertedFields(s, p, x, k, kids[j]);
    if k < |kids| && j != k {
      Different2(kids, j, k);
    }
    if k > 0 && j != k - 1 {
      Different2(kids, j, k - 1);
    }
  }

  lemma Different2(kids: seq<XMLNode>, i: nat, j: nat)
    requires NoneTwice(kids) && i < |kids| && j < |kids| && i != j
    ensures kids[i] != kids[j]
  {
  }

  lemma InsertedElsewhere(s: Shape, p: XMLNode, x: XMLNode, k: nat, n: XMLNode, kids: seq<XMLNode>, j: nat)
    requires Whole(s) && p in s.nodes && x in s.nodes && k <= |s.kids[p]| && s.parent[x] == null
    requires (k > 0 ==> Placed(s, p, s.kids[p], k - 1)) && (k < |s.kids[p]| ==> Placed(s, p, s.kids[p], k))
    requires n != p && j < |kids| && Placed(s, n, kids, j)
    ensures Placed(Inserted(s, p, x, k), n, kids, j)
  {
    hide Inserted, Before, Behind, InsertAt;
    InsertedFields(s, p, x, k, kids[j]);
  }

  lemma NoChild(s: Shape, rank: map<XMLNode, nat>, p: XMLNode, x: XMLNode)
    requires Forest(s, rank) && p in s.nodes && x in s.nodes && s.parent[x] == null
    ensures x !in s.kids[p]
  {
    assert Chain(s, p);
    forall i | 0 <= i < |s.kids[p]|
      ensures s.kids[p][i] != x
    {
      assert Placed(s, p, s.kids[p], i);
    }
  }

  lemma InsertedChain(s: Shape, rank: map<XMLNode, nat>, p: XMLNode, x: XMLNode, k: nat)
    requires Whole(s) && Forest(s, rank) && p in s.nodes && x in s.nodes && k <= |s.kids[p]| && s.parent[x] == null
    ensures Chain(Inserted(s, p, x, k), p)
  {
    hide Forest, NoneTwice, Placed, Inserted, InsertAt;
    var t, kids := Inserted(s, p, x, k), s.kids[p];
    ChainOf(s, rank, p);
    NoChild(s, rank, p, x);
    InsertedFields(s, p, x, k, p);
    SpreadEnds(kids, k, x);
    StillNoneTwice(kids, k, x);
    var more := InsertAt(kids, k, x);
    forall j | 0 <= j < |more|
      ensures Placed(t, p, more, j)
    {
      if j == k {
        NewPlaced(s, p, x, k);
      } else {
        InsertedSibling(s, p, x, k, if j < k then j else j - 1);
      }
    }
  }

  lemma NewPlaced(s: Shape, p: XMLNode, x: XMLNode, k: nat)
    requires Whole(s) && p in s.nodes && x in s.nodes && k <= |s.kids[p]|
    ensures |InsertAt(s.kids[p], k, x)| == |s.kids[p]| + 1 && Placed(Inserted(s, p, x, k), p, InsertAt(s.kids[p], k, x), k)
  {
    hide Inserted, InsertAt;
    InsertedFields(s, p, x, k, x);
    SpreadEnds(s.kids[p], k, x);
  }

  lemma InsertedOther(s: Shape, rank: map<XMLNode, nat>, p: XMLNode, x: XMLNode, k: nat, n: XMLNode)
    requires Whole(s) && Forest(s, rank) && p in s.nodes && x in s.nodes && k <= |s.kids[p]| && s.parent[x] == null && n in s.nodes && n != p
    ensures Chain(Inserted(s, p, x, k), n)
  {
    hide Forest, NoneTwice, Placed, Inserted, InsertAt;
    ChainOf(s, rank, n);
    ChainOf(s, rank, p);
    InsertedFields(s, p, x, k, n);
    forall j | 0 <= j < |s.kids[n]|
      ensures Placed(Inserted(s, p, x, k), n, s.kids[n], j)
    {
      InsertedElsewhere(s, p, x, k, n, s.kids[n], j);
    }
  }

  lemma InsertedHangs(s: Shape, rank: map<XMLNode, nat>, p: XMLNode, x: XMLNode, k: nat, above: set<XMLNode>, n: XMLNode)
    requires Whole(s) && Forest(s, rank) && Fits(s, p, x, above) && k <= |s.kids[p]| && n in s.nodes && x in rank
    ensures Hangs(Inserted(s, p, x, k), n) && Ranked(Inserted(s, p, x, k), n, Lifted(rank, above, rank[x]))
  {
    hide Forest, NoneTwice, Inserted, InsertAt, Chain;
    ChainOf(s, rank, n);
    ChainOf(s, rank, p);
    InsertedFields(s, p, x, k, n);
    InsertedFields(s, p, x, k, p);
    SpreadEnds(s.kids[p], k, x);
    ParentOfNeighbours(s, rank, p, k);
    if s.parent[n] != null {
      InsertedFields(s, p, x, k, s.parent[n]);
    }
  }

  lemma ParentOfNeighbours(s: Shape, rank: map<XMLNode, nat>, p: XMLNode, k: nat)
    requires Forest(s, rank) && p in s.nodes && k <= |s.kids[p]|
    ensures k > 0 ==> s.kids[p][k - 1] in s.nodes && s.parent[s.kids[p][k - 1]] == p
    ensures k < |s.kids[p]| ==> s.kids[p][k] in s.nodes && s.parent[s.kids[p][k]] == p
  {
    assert Chain(s, p);
    assert k > 0 ==> Placed(s, p, s.kids[p], k - 1);
    assert k < |s.kids[p]| ==> Placed(s, p, s.kids[p], k);
  }

  lemma InsertedIsForest(s: Shape, rank: map<XMLNode, nat>, p: XMLNode, x: XMLNode, k: nat, above: set<XMLNode>)
    requires Forest(s, rank) && Fits(s, p, x, above) && k <= |s.kids[p]|
    ensures x in rank && Forest(Inserted(s, p, x, k), Lifted(rank, above, rank[x]))
  {
    hide Chain, Hangs, Placed, Inserted, Lifted, NoneTwice, InsertAt;
    assert Ranked(s, x, rank);
    hide Ranked;
    var t := Inserted(s, p, x, k);
    forall n | n in s.nodes
      ensures Chain(t, n) && Hangs(t, n) && Ranked(t, n, Lifted(rank, above, rank[x]))
    {
      InsertedHangs(s, rank, p, x, k, above, n);
      if n == p {
        InsertedChain(s, rank, p, x, k);
      } else {
        InsertedOther(s, rank, p, x, k, n);
      }
    }
  }

  // ---------- the way up ----------

  function Higher(s: Shape, rank: map<XMLNode, nat>, n: XMLNode): set<XMLNode>
  {
    set m | m in s.nodes && m in rank && n in rank && rank[n] < rank[m]
  }

  /** `n`, its parent, and so on. */
  function Above(s: Shape, rank: map<XMLNode, nat>, n: XMLNode): (r: set<XMLNode>)
    requires Forest(s, rank) && n in s.nodes
    ensures n in r && r <= s.nodes
    decreases Higher(s, rank, n)
  {
    assert Ranked(s, n, rank) && Hangs(s, n);
    if s.parent[n] == null then {n}
    else
      HigherLess(s, rank, n);
      {n} + Above(s, rank, s.parent[n])
  }

  lemma HigherLess(s: Shape, rank: map<XMLNode, nat>, n: XMLNode)
    requires Forest(s, rank) && n in s.nodes && s.parent[n] != null
    ensures n in rank && s.parent[n] in s.nodes && s.parent[n] in rank && Higher(s, rank, s.parent[n]) < Higher(s, rank, n)
  {
    assert Ranked(s, n, rank) && Hangs(s, n);
    assert s.parent[n] in Higher(s, rank, n);
  }

  lemma {:induction false} AboveIsClosed(s: Shape, rank: map<XMLNode, nat>, n: XMLNode, m: XMLNode)
    requires Forest(s, rank) && n in s.nodes && m in Above(s, rank, n)
    ensures s.parent[m] != null ==> s.parent[m] in Above(s, rank, n)
    ensures n in rank && m in rank && rank[n] <= rank[m]
    decreases Higher(s, rank, n)
  {
    assert Ranked(s, n, rank) && Hangs(s, n);
    if s.parent[n] != null {
      HigherLess(s, rank, n);
      if m != n {
        AboveIsClosed(s, rank, s.parent[n], m);
      }
    }
  }

  // ---------- moving a node ----------

  function Detached(s: Shape, x: XMLNode): (t: Shape)
    requires Whole(s) && x in s.nodes && (s.parent[x] != null ==> s.parent[x] in s.nodes)
    ensures t.nodes == s.nodes && Whole(t)
  {
    if s.parent[x] == null then s else Unlinked(s, x)
  }

  /** A node, wherever it is, becomes child number k of `p`, counted without itself. */
  function Moved(s: Shape, p: XMLNode, x: XMLNode, k: nat): (t: Shape)
    requires Whole(s) && p in s.nodes && x in s.nodes && (s.parent[x] != null ==> s.parent[x] in s.nodes)
    requires k <= |Detached(s, x).kids[p]|
    ensures t.nodes == s.nodes && Whole(t)
  {
    Inserted(Detached(s, x), p, x, k)
  }

  lemma ParentIn(s: Shape, rank: map<XMLNode, nat>, x: XMLNode)
    requires Forest(s, rank) && x in s.nodes
    ensures Whole(s) && x in rank && (s.parent[x] != null ==> s.parent[x] in s.nodes)
  {
    ChainOf(s, rank, x);
  }

  lemma DetachedFields(s: Shape, rank: map<XMLNode, nat>, x: XMLNode, n: XMLNode)
    requires Forest(s, rank) && x in s.nodes && n in s.nodes
    ensures s.parent[x] != null ==> s.parent[x] in s.nodes
    ensures var t := Detached(s, x);
            t.parent[n] == (if n == x then null else s.parent[n]) && t.kids[n] == Removed(s.kids[n], x)
  {
    hide Chain, Ranked, Placed, NoneTwice, Unlinked;
    ParentIn(s, rank, x);
    if s.parent[x] == null {
      NoChild(s, rank, n, x);
    } else {
      var p, i := Place(s, rank, x);
      UnlinkedFields(s, x, p, i, n);
      if n != p {
        ChildOfOne(s, rank, x, n);
      }
    }
  }

  lemma ChildOfOne(s: Shape, rank: map<XMLNode, nat>, x: XMLNode, n: XMLNode)
    requires Forest(s, rank) && n in s.nodes && x in s.nodes && s.parent[x] != n
    ensures x !in s.kids[n]
  {
    ChainOf(s, rank, n);
    forall i | 0 <= i < |s.kids[n]|
      ensures s.kids[n][i] != x
    {
      assert Placed(s, n, s.kids[n], i);
    }
  }

  /** A node may be moved below `p` unless it is `p` or above it. */
  lemma FitsBelow(s: Shape, rank: map<XMLNode, nat>, p: XMLNode, x: XMLNode)
    requires Forest(s, rank) && p in s.nodes && x in s.nodes && x !in Above(s, rank, p)
    ensures s.parent[x] != null ==> s.parent[x] in s.nodes
    ensures Forest(Detached(s, x), rank) && Fits(Detached(s, x), p, x, Above(s, rank, p))
  {
    hide Forest, Above, Unlinked;
    ParentIn(s, rank, x);
    DetachedFields(s, rank, x, x);
    if s.parent[x] != null {
      UnlinkedIsForest(s, rank, x);
    }
    forall n | n in Above(s, rank, p)
      ensures n in s.nodes && (Detached(s, x).parent[n] != null ==> Detached(s, x).parent[n] in Above(s, rank, p))
    {
      AboveIsClosed(s, rank, p, n);
      DetachedFields(s, rank, x, n);
    }
  }

  /** What moving a node does: it leaves its place, stands at the new one, and all other lists of children stay what they were. */
  lemma MovedKids(s: Shape, rank: map<XMLNode, nat>, p: XMLNode, x: XMLNode, k: nat, n: XMLNode)
    requires Forest(s, rank) && p in s.nodes && x in s.nodes && x !in Above(s, rank, p) && n in s.nodes
    requires s.parent[x] != null ==> s.parent[x] in s.nodes
    requires k <= |Detached(s, x).kids[p]|
    ensures k <= |Removed(s.kids[p], x)|
    ensures var t := Moved(s, p, x, k);
            && t.kids[n] == (if n == p then InsertAt(Removed(s.kids[p], x), k, x) else Removed(s.kids[n], x))
            && t.parent[n] == (if n == x then p else s.parent[n])
  {
    hide Forest, Above, Unlinked, Inserted, Detached, InsertAt;
    ParentIn(s, rank, x);
    DetachedFields(s, rank, x, n);
    DetachedFields(s, rank, x, p);
    InsertedFields(Detached(s, x), p, x, k, n);
  }

  /** `after` is `before` without `x`, which was there once or not at all. */
  predicate TakenOut(before: seq<XMLNode>, after: seq<XMLNode>, x: XMLNode) {
    (x !in before && after == before) || exists i :: 0 <= i < |before| && before[i] == x && after == before[..i] + before[i + 1..]
  }

  /** `x` is now at place k, and the others are as before. */
  predicate StandsAt(before: seq<XMLNode>, after: seq<XMLNode>, x: XMLNode, k: nat) {
    k < |after| && after[k] == x && TakenOut(before, after[..k] + after[k + 1..], x)
  }

  /** `x` is now directly behind `a`, and the others are as before. */
  predicate StandsBehind(before: seq<XMLNode>, after: seq<XMLNode>, a: XMLNode, x: XMLNode) {
    exists i :: 0 <= i < |after| - 1 && after[i] == a && StandsAt(before, after, x, i + 1)
  }

  lemma RemovedIs(s: seq<XMLNode>, x: XMLNode)
    ensures TakenOut(s, Removed(s, x), x)
  {
    hide Removed;
    if x in s {
      var i := RemovedFrom(s, x);
    }
  }

  lemma {:induction false} RemovedFrom(s: seq<XMLNode>, x: XMLNode) returns (i: nat)
    requires x in s
    ensures i < |s| && s[i] == x && Removed(s, x) == s[..i] + s[i + 1..]
  {
    if s[0] == x {
      i := 0;
    } else {
      var j := RemovedFrom(s[1..], x);
      i := j + 1;
      assert s[..i] == [s[0]] + s[1..][..j] && s[i + 1..] == s[1..][j + 1..];
    }
  }

  /** Moving a node puts it at its new place among the children of its parent, and nothing else is disturbed there. */
  lemma MovedPlaces(s: Shape, rank: map<XMLNode, nat>, p: XMLNode, x: XMLNode, k: nat)
    requires Forest(s, rank) && p in s.nodes && x in s.nodes && x !in Above(s, rank, p)
    requires s.parent[x] != null ==> s.parent[x] in s.nodes
    requires k <= |Detached(s, x).kids[p]|
    ensures var kids, t := Detached(s, x).kids[p], Moved(s, p, x, k);
            && p in t.nodes && x in t.nodes && t.parent[x] == p && StandsAt(s.kids[p], t.kids[p], x, k) && |t.kids[p]| == |kids| + 1 && t.kids[p][..k] == kids[..k]
  {
    hide Forest, Above, Unlinked, Inserted, Detached, Moved, Removed, TakenOut;
    ParentIn(s, rank, x);
    MovedKids(s, rank, p, x, k, p);
    MovedKids(s, rank, p, x, k, x);
    DetachedFields(s, rank, x, p);
    RemovedIs(s.kids[p], x);
    var kids := Removed(s.kids[p], x);
    assert InsertAt(kids, k, x)[..k] + InsertAt(kids, k, x)[k + 1..] == kids;
  }

  /** A forest it remains. */
  lemma MovedIsForest(s: Shape, rank: map<XMLNode, nat>, p: XMLNode, x: XMLNode, k: nat)
    requires Forest(s, rank) && p in s.nodes && x in s.nodes && x !in Above(s, rank, p)
    requires s.parent[x] != null ==> s.parent[x] in s.nodes
    requires k <= |Detached(s, x).kids[p]|
    ensures x in rank && Forest(Moved(s, p, x, k), Lifted(rank, Above(s, rank, p), rank[x]))
  {
    hide Forest, Above, Inserted, Detached, Fits, Lifted;
    ParentIn(s, rank, x);
    FitsBelow(s, rank, p, x);
    InsertedIsForest(Detached(s, x), rank, p, x, k, Above(s, rank, p));
  }

  function IndexIn(kids: seq<XMLNode>, x: XMLNode): (i: nat)
    requires x in kids
    ensures i < |kids| && kids[i] == x
  {
    if kids[0] == x then 0 else 1 + IndexIn(kids[1..], x)
  }

  lemma IndexIs(kids: seq<XMLNode>, i: nat)
    requires NoneTwice(kids) && i < |kids|
    ensures IndexIn(kids, kids[i]) == i
  {
    var j := IndexIn(kids, kids[i]);
    assert kids[j] == kids[i];
  }

  /** Sibling links point both ways. */
  lemma NextAndPrev(s: Shape, rank: map<XMLNode, nat>, a: XMLNode, c: XMLNode)
    requires Forest(s, rank) && a in s.nodes && c in s.nodes
    ensures s.next[a] == c <==> s.prev[c] == a
  {
    hide Chain, Hangs, Ranked;
    NextHasPrev(s, rank, a, c);
    PrevHasNext(s, rank, a, c);
  }

  lemma NextHasPrev(s: Shape, rank: map<XMLNode, nat>, a: XMLNode, c: XMLNode)
    requires Forest(s, rank) && a in s.nodes && c in s.nodes && Whole(s)
    ensures s.next[a] == c ==> s.prev[c] == a
  {
    ChainOf(s, rank, a);
    if s.parent[a] != null {
      var p, i := Place(s, rank, a);
      ChainOf(s, rank, p);
      assert i + 1 < |s.kids[p]| ==> Placed(s, p, s.kids[p], i + 1);
    }
  }

  lemma PrevHasNext(s: Shape, rank: map<XMLNode, nat>, a: XMLNode, c: XMLNode)
    requires Forest(s, rank) && a in s.nodes && c in s.nodes && Whole(s)
    ensures s.prev[c] == a ==> s.next[a] == c
  {
    ChainOf(s, rank, c);
    if s.parent[c] != null {
      var p, i := Place(s, rank, c);
      ChainOf(s, rank, p);
      assert i > 0 ==> Placed(s, p, s.kids[p], i - 1);
    }
  }

  /** When taking `x` out leaves nothing behind `a`, although something stood there. */
  lemma NothingBehind(s: Shape, rank: map<XMLNode, nat>, a: XMLNode, x: XMLNode)
    requires Forest(s, rank) && a in s.nodes && x in s.nodes && a != x && s.next[a] != null
    ensures s.parent[x] != null ==> s.parent[x] in s.nodes
    ensures Detached(s, x).next[a] == null <==> s.next[a] == x && s.next[x] == null
    ensures Detached(s, x).parent[a] == s.parent[a] && Detached(s, x).next[a] in {s.next[a], s.next[x]}
  {
    hide Chain, Ranked, Placed, NoneTwice, Unlinked;
    ParentIn(s, rank, x);
    NextAndPrev(s, rank, a, x);
    ChainOf(s, rank, x);
    if s.parent[x] != null {
      var p, i := Place(s, rank, x);
      UnlinkedFields(s, x, p, i, a);
    }
  }

  /** The place behind a child. */
  lemma PlaceBehind(s: Shape, rank: map<XMLNode, nat>, p: XMLNode, a: XMLNode)
    requires Forest(s, rank) && p in s.nodes && a in s.nodes && s.parent[a] == p
    ensures a in s.kids[p]
    ensures var i := IndexIn(s.kids[p], a);
            && i < |s.kids[p]| && s.kids[p][i] == a && s.next[a] == Behind(s.kids[p], i)
            && (i + 1 < |s.kids[p]| ==> s.kids[p][i + 1] in s.nodes && s.kids[p][i + 1] != a)
  {
    hide Ranked, Placed;
    var q, i := Place(s, rank, a);
    ChainOf(s, rank, p);
    IndexIs(s.kids[p], i);
  }

  /** A last child stays the last one when another node is taken out. */
  lemma LastPlace(s: Shape, rank: map<XMLNode, nat>, p: XMLNode, a: XMLNode, x: XMLNode)
    requires Forest(s, rank) && p in s.nodes && a in s.nodes && x in s.nodes && a != x && s.parent[a] == p && s.next[a] == null
    ensures s.parent[x] != null ==> s.parent[x] in s.nodes
    ensures var kids := Detached(s, x).kids[p]; a in kids && IndexIn(kids, a) + 1 == |kids|
  {
    hide Chain, Ranked, Hangs, Placed, NoneTwice, Unlinked;
    ParentIn(s, rank, x);
    NextAndPrev(s, rank, a, x);
    if s.parent[x] != null {
      var q, i := Place(s, rank, x);
      UnlinkedFields(s, x, q, i, a);
      UnlinkedIsForest(s, rank, x);
    }
    PlaceBehind(Detached(s, x), rank, p, a);
  }

  // ---------- new nodes ----------

  function WithNode(s: Shape, n: XMLNode): (t: Shape)
    requires Whole(s)
    ensures Whole(t) && t.nodes == s.nodes + {n}
  {
    Shape(s.nodes + {n}, s.parent[n := null], s.first[n := null], s.last[n := null], s.prev[n := null], s.next[n := null], s.kids[n := []])
  }

  lemma WithNodeIsForest(s: Shape, rank: map<XMLNode, nat>, n: XMLNode)
    requires Forest(s, rank) && n !in s.nodes
    ensures Forest(WithNode(s, n), rank[n := 0])
  {
    hide NoneTwice, Before, Behind;
    var t := WithNode(s, n);
    forall m | m in s.nodes
      ensures Chain(t, m) && Hangs(t, m) && Ranked(t, m, rank[n := 0])
    {
      ChainOf(s, rank, m);
      forall j | 0 <= j < |s.kids[m]|
        ensures Placed(t, m, s.kids[m], j)
      {
        assert Placed(s, m, s.kids[m], j);
      }
    }
    assert NoneTwice([]) by {
      EmptyNoneTwice();
    }
  }

  lemma EmptyNoneTwice()
    ensures NoneTwice([])
  {
  }

  // ---------- nodes that go ----------

  /** `t` is `s` without the nodes in `r`, and otherwise the same. */
  predicate Pruned(s: Shape, t: Shape, r: set<XMLNode>) {
    && Whole(s) && Whole(t) && t.nodes == s.nodes - r
    && forall m :: m in t.nodes ==> SameAt(s, t, m)
  }

  predicate SameAt(s: Shape, t: Shape, m: XMLNode)
    requires Whole(s) && Whole(t) && m in s.nodes && m in t.nodes
  {
    && t.parent[m] == s.parent[m] && t.first[m] == s.first[m] && t.last[m] == s.last[m]
    && t.prev[m] == s.prev[m] && t.next[m] == s.next[m] && t.kids[m] == s.kids[m]
  }

  /** `r` is part of what hangs below `n`, and `n` itself: every other member's parent is a member, too. */
  predicate Severed(s: Shape, n: XMLNode, r: set<XMLNode>) {
    Whole(s) && n in r && forall m :: m in r ==> m in s.nodes && (m == n || (s.parent[m] != null && s.parent[m] in r))
  }

  /** Everything in a cut hangs below its root. */
  lemma {:induction false} CutIsBelow(s: Shape, rank: map<XMLNode, nat>, n: XMLNode, r: set<XMLNode>, m: XMLNode)
    requires Forest(s, rank) && Severed(s, n, r) && m in r
    ensures m in s.nodes && n in Above(s, rank, m) && n in rank && m in rank && rank[m] <= rank[n]
    decreases Higher(s, rank, m)
  {
    ChainOf(s, rank, m);
    if m != n {
      HigherLess(s, rank, m);
      CutIsBelow(s, rank, n, r, s.parent[m]);
    }
  }

  lemma CutMisses(s: Shape, rank: map<XMLNode, nat>, n: XMLNode, r: set<XMLNode>, p: XMLNode)
    requires Forest(s, rank) && Severed(s, n, r) && p in s.nodes && s.parent[n] == p
    ensures p !in r
  {
    ChainOf(s, rank, n);
    if p in r {
      CutIsBelow(s, rank, n, r, p);
    }
  }

  /** A node without parent and children can go. */
  lemma LeafGone(s: Shape, t: Shape, rank: map<XMLNode, nat>, n: XMLNode)
    requires Forest(s, rank) && n in s.nodes && s.parent[n] == null && s.kids[n] == [] && Pruned(s, t, {n})
    ensures Forest(t, rank)
  {
    hide NoneTwice, Before, Behind;
    forall m | m in t.nodes
      ensures Chain(t, m) && Hangs(t, m) && Ranked(t, m, rank)
    {
      ChainOf(s, rank, m);
      assert SameAt(s, t, m);
      NoChild(s, rank, m, n);
      forall j | 0 <= j < |s.kids[m]|
        ensures Placed(t, m, s.kids[m], j)
      {
        assert Placed(s, m, s.kids[m], j);
        assert SameAt(s, t, s.kids[m][j]);
      }
    }
  }

  /** `t` is `s` when some of n's children, from the front, have gone with all that hangs below them. */
  predicate Remains(s: Shape, t: Shape, n: XMLNode) {
    && Whole(s) && Whole(t) && n in t.nodes && t.nodes <= s.nodes && |t.kids[n]| <= |s.kids[n]|
    && t.kids[n] == s.kids[n][|s.kids[n]| - |t.kids[n]|..] && t.prev[n] == s.prev[n] && t.next[n] == s.next[n]
    && (forall m :: m in t.nodes ==> t.parent[m] == s.parent[m])
    && (forall m :: m in t.nodes && m != n ==> t.first[m] == s.first[m] && t.last[m] == s.last[m] && t.kids[m] == s.kids[m] && t.next[m] == s.next[m])
    && (forall m :: m in t.nodes && m != n && m !in t.kids[n] ==> t.prev[m] == s.prev[m])
    && (forall m :: m in s.nodes && m !in t.nodes ==> s.parent[m] == n || (s.parent[m] != null && s.parent[m] in s.nodes && s.parent[m] !in t.nodes))
  }

  /** What DeleteChildren leaves: nothing below `n`, and the rest as it was. */
  predicate Bared(s: Shape, t: Shape, n: XMLNode) {
    && Whole(s) && Whole(t) && n in t.nodes && t.nodes <= s.nodes
    && (forall m :: m in t.nodes && m != n ==> SameAt(s, t, m))
    && t.parent[n] == s.parent[n] && t.prev[n] == s.prev[n] && t.next[n] == s.next[n]
    && t.kids[n] == [] && t.first[n] == null && t.last[n] == null
    && (forall m :: m in s.nodes && m !in t.nodes ==> s.parent[m] == n || (s.parent[m] != null && s.parent[m] in s.nodes && s.parent[m] !in t.nodes))
  }

  lemma NothingGoneYet(s: Shape, n: XMLNode)
    requires Whole(s) && n in s.nodes
    ensures Remains(s, s, n)
  {
  }

  lemma AllGone(s: Shape, t: Shape, rank: map<XMLNode, nat>, n: XMLNode)
    requires Remains(s, t, n) && t.kids[n] == [] && Forest(t, rank)
    ensures Bared(s, t, n)
  {
    ChainOf(t, rank, n);
    hide Forest;
  }

  /** The first child unlinked and its subtree gone: the links of all nodes that stay. */
  lemma FirstChildGone(t: Shape, u: Shape, rank: map<XMLNode, nat>, n: XMLNode, r: set<XMLNode>)
    requires Whole(t) && Forest(t, rank) && n in t.nodes && t.kids[n] != []
    requires var c := t.kids[n][0]; c in t.nodes && t.parent[c] == n && Severed(t, c, r) && n !in r && Pruned(Unlinked(t, c), u, r)
    ensures Whole(u) && u.nodes == t.nodes - r && n in u.nodes && u.kids[n] == t.kids[n][1..]
    ensures u.prev[n] == t.prev[n] && u.next[n] == t.next[n]
    ensures forall m :: m in u.nodes ==> u.parent[m] == t.parent[m] && u.next[m] == t.next[m]
    ensures forall m :: m in u.nodes && m != n ==> u.first[m] == t.first[m] && u.last[m] == t.last[m] && u.kids[m] == t.kids[m]
    ensures forall m :: m in u.nodes && m != n && m !in u.kids[n] ==> u.prev[m] == t.prev[m]
  {
    hide Forest, Unlinked, Removed, NoneTwice;
    var c := t.kids[n][0];
    FirstPlace(t, rank, n);
    UnlinkedKids(t, rank, c, n, 0);
    assert t.kids[n][..0] + t.kids[n][1..] == t.kids[n][1..];
    forall m | m in u.nodes
      ensures SameAt(Unlinked(t, c), u, m) && m != c
    {
    }
    forall m | m in u.nodes
      ensures u.parent[m] == t.parent[m] && u.next[m] == t.next[m] && u.prev[m] == (if m == t.next[c] then null else t.prev[m])
      ensures u.kids[m] == (if m == n then t.kids[n][1..] else t.kids[m])
      ensures m != n ==> u.first[m] == t.first[m] && u.last[m] == t.last[m]
    {
      UnlinkedFields(t, c, n, 0, m);
    }
    assert |t.kids[n]| > 1 ==> t.next[c] == t.kids[n][1..][0];
  }

  lemma FirstPlace(t: Shape, rank: map<XMLNode, nat>, n: XMLNode)
    requires Whole(t) && Forest(t, rank) && n in t.nodes && t.kids[n] != []
    ensures At(t, t.kids[n][0], n, 0) && t.prev[t.kids[n][0]] == null && t.next[t.kids[n][0]] != n
  {
    hide NoneTwice;
    assert Chain(t, n) && Placed(t, n, t.kids[n], 0);
    assert |t.kids[n]| > 1 ==> Placed(t, n, t.kids[n], 1);
    assert Ranked(t, t.kids[n][0], rank) && Ranked(t, n, rank);
    assert Chain(t, n) && Hangs(t, n);
  }

  /** One more child gone. */
  lemma OneMoreGone(s: Shape, t: Shape, u: Shape, rank: map<XMLNode, nat>, n: XMLNode, r: set<XMLNode>)
    requires Remains(s, t, n) && Forest(t, rank) && t.kids[n] != []
    requires var c := t.kids[n][0]; c in t.nodes && t.parent[c] == n && Severed(t, c, r) && n !in r && Pruned(Unlinked(t, c), u, r)
    ensures Remains(s, u, n) && |u.kids[n]| == |t.kids[n]| - 1
  {
    hide Forest, Unlinked, Pruned;
    FirstChildGone(t, u, rank, n, r);
  }

  /** Deleting a child takes exactly the nodes that hang below it, and itself. */
  lemma {:induction false} DeletedIsSubtree(s: Shape, t: Shape, rank: map<XMLNode, nat>, c: XMLNode, r: set<XMLNode>, m: XMLNode)
    requires Forest(s, rank) && c in s.nodes && s.parent[c] != null && s.parent[c] in s.nodes && m in s.nodes
    requires Severed(s, c, r) && Pruned(Unlinked(s, c), t, r) && Forest(t, rank)
    ensures m in r <==> c in Above(s, rank, m)
    decreases Higher(s, rank, m)
  {
    hide Unlinked, Placed, NoneTwice;
    ChainOf(s, rank, m);
    if m in r {
      CutIsBelow(s, rank, c, r, m);
    } else if s.parent[m] != null && m != c {
      HigherLess(s, rank, m);
      DeletedIsSubtree(s, t, rank, c, r, s.parent[m]);
      ChainOf(t, rank, m);
      assert SameAt(Unlinked(s, c), t, m);
      var p, i := Place(s, rank, c);
      UnlinkedFields(s, c, p, i, m);
    }
  }

  /** When only the document's node has no parent, and it has no children, there is nothing else. */
  lemma {:induction false} OnlyRoot(s: Shape, rank: map<XMLNode, nat>, node: XMLNode, m: XMLNode)
    requires Forest(s, rank) && node in s.nodes && s.kids[node] == [] && m in s.nodes
    requires forall n :: n in s.nodes && s.parent[n] == null ==> n == node
    ensures m == node
    decreases Higher(s, rank, m)
  {
    ChainOf(s, rank, m);
    if s.parent[m] != null {
      HigherLess(s, rank, m);
      OnlyRoot(s, rank, node, s.parent[m]);
    }
  }
}
