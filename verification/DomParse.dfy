/** Parsing as the document sees it: which nodes are made, linked and deleted while a text is read. What is read comes from the
    definitions in XmlSyntax.dfy, which XmlParser.dfy ties to the buffer. */
module DomParse {
  import opened XmlUtil
  import opened XmlText
  import opened XmlSyntax
  import opened DomShape
  import opened Dom
  import opened DomTrees
  import RoundTrip

  // ---------- the tree that a parsed node becomes ----------

  function PayloadOf(n: Node): Payload {
    match n
    case Element(name, attrs, _) => ElementNode(name, attrs)
    case Text(v, cdata) => TextNode(v, cdata)
    case Comment(v) => CommentNode(v)
    case Declaration(v) => DeclarationNode(v)
    case Unknown(v) => UnknownNode(v)
  }

  function TreeOfNode(n: Node): Tree
    decreases n, 1
  {
    Tree(PayloadOf(n), if n.Element? then TreesOfNodes(n.children) else [])
  }

  function TreesOfNodes(ns: seq<Node>): (r: seq<Tree>)
    ensures |r| == |ns| && forall i :: 0 <= i < |ns| ==> r[i] == TreeOfNode(ns[i])
    decreases ns, 0
  {
    if ns == [] then [] else [TreeOfNode(ns[0])] + TreesOfNodes(ns[1..])
  }

  lemma TreesAppend(ns: seq<Node>, n: Node)
    ensures TreesOfNodes(ns + [n]) == TreesOfNodes(ns) + [TreeOfNode(n)]
  {
    hide TreeOfNode;
    var l, r := TreesOfNodes(ns + [n]), TreesOfNodes(ns) + [TreeOfNode(n)];
    assert forall i :: 0 <= i < |l| ==> l[i] == r[i];
  }

  /** The node that a tree stands for. */
  function NodeOf(t: Tree): Node
    decreases t, 1
  {
    match t.payload
    case ElementNode(name, attrs) => Element(name, attrs, NodesOf(t.kids))
    case TextNode(v, cdata) => Text(v, cdata)
    case CommentNode(v) => Comment(v)
    case DeclarationNode(v) => Declaration(v)
    case UnknownNode(v) => Unknown(v)
    case DocumentNode => Element("", [], NodesOf(t.kids))  // stands below no other
  }

  function NodesOf(ts: seq<Tree>): seq<Node>
    decreases ts, 0
  {
    if ts == [] then [] else [NodeOf(ts[0])] + NodesOf(ts[1..])
  }

  /** Nothing of a node is lost in its tree. */
  lemma {:induction false} NodeOfTree(n: Node)
    ensures NodeOf(TreeOfNode(n)) == n
    decreases n, 1
  {
    hide NodesOf, TreesOfNodes;
    if n.Element? {
      NodesOfTrees(n.children);
    }
  }

  lemma {:induction false} NodesOfTrees(ns: seq<Node>)
    ensures NodesOf(TreesOfNodes(ns)) == ns
    decreases ns, 0
  {
    hide NodeOf, TreeOfNode;
    if ns == [] {
      assert TreesOfNodes(ns) == [];
    } else {
      NodeOfTree(ns[0]);
      NodesOfTrees(ns[1..]);
      var ts := TreesOfNodes(ns);
      assert ts[0] == TreeOfNode(ns[0]) && ts[1..] == TreesOfNodes(ns[1..]);
      assert ns == [ns[0]] + ns[1..];
    }
  }

  /** `x`, by what it says and by its links, is the node `n` with all that is below it. */
  ghost predicate Shows(s: Shape, x: XMLNode, n: Node)
    decreases n, 1
  {
    x in s.kids &&
    match n
    case Element(name, attrs, children) => x.payload == ElementNode(name, attrs) && AllShow(s, s.kids[x], children)
    case Text(v, cdata) => x.payload == TextNode(v, cdata) && s.kids[x] == []
    case Comment(v) => x.payload == CommentNode(v) && s.kids[x] == []
    case Declaration(v) => x.payload == DeclarationNode(v) && s.kids[x] == []
    case Unknown(v) => x.payload == UnknownNode(v) && s.kids[x] == []
  }

  ghost predicate AllShow(s: Shape, xs: seq<XMLNode>, ns: seq<Node>)
    decreases ns, 0
  {
    |xs| == |ns| && forall i :: 0 <= i < |ns| ==> Shows(s, xs[i], ns[i])
  }

  lemma {:induction false} TreeShows(s: Shape, rank: map<XMLNode, nat>, x: XMLNode, n: Node)
    requires Forest(s, rank) && x in s.nodes && TreeOf(s, rank, x) == TreeOfNode(n)
    ensures Shows(s, x, n)
    decreases n, 1
  {
    hide Forest, TreesFrom, TreesOfNodes;
    KidsAreLower(s, rank, x);
    assert TreesFrom(s, rank, x, 0) == if n.Element? then TreesOfNodes(n.children) else [];
    if n.Element? {
      forall i | 0 <= i < |n.children|
        ensures Shows(s, s.kids[x][i], n.children[i])
      {
        TreesAt(s, rank, x, 0, i);
        TreeShows(s, rank, s.kids[x][i], n.children[i]);
      }
    }
  }

  /** Children that say the trees of some nodes are those nodes. */
  lemma ChildrenShow(s: Shape, rank: map<XMLNode, nat>, x: XMLNode, ns: seq<Node>)
    requires ChildrenSay(s, rank, x, TreesOfNodes(ns))
    ensures x in s.kids && AllShow(s, s.kids[x], ns) && NodesOf(Below(s, rank, x)) == ns
  {
    hide Forest, TreeOf, TreeOfNode, Below, NodesOf;
    HoldsAll(s, rank, x, TreesOfNodes(ns));
    NodesOfTrees(ns);
    KidsAreLower(s, rank, x);
    forall i | 0 <= i < |ns|
      ensures Shows(s, s.kids[x][i], ns[i])
    {
      TreeShows(s, rank, s.kids[x][i], ns[i]);
    }
  }

  /** The children of a document by their links, as nodes. */
  lemma DocumentShows(doc: XMLDocument, ns: seq<Node>)
    requires doc.Valid() && ChildrenSay(ShapeOf(doc.live), doc.rank, doc.node, TreesOfNodes(ns))
    ensures AllShow(ShapeOf(doc.live), doc.node.kids, ns) && NodesOf(Below(ShapeOf(doc.live), doc.rank, doc.node)) == ns
  {
    hide ChildrenSay, ShapeOf, Forest, Below, NodesOf;
    RootIs(doc);
    ChildrenShow(ShapeOf(doc.live), doc.rank, doc.node, ns);
    FieldsOf(doc.live, doc.node);
  }

  /** What a node is made as before it has been read. */
  function Blank(k: Kind): Payload {
    match k
    case DeclarationKind => DeclarationNode([])
    case CommentKind => CommentNode([])
    case CDataKind => TextNode([], true)
    case UnknownKind => UnknownNode([])
    case ElementKind => ElementNode([], [])
    case TextKind => TextNode([], false)
  }

  // ---------- what may have changed ----------

  /** All nodes of `s` are still linked as they were, and of the new ones only those in `roots` hang nowhere. */
  predicate Beside(s: Shape, t: Shape, roots: set<XMLNode>) {
    && Whole(s) && Whole(t) && s.nodes <= t.nodes && roots !! s.nodes
    && (forall m :: m in s.nodes ==> SameAt(s, t, m))
    && (forall m :: m in t.nodes && m !in s.nodes && m !in roots ==> t.parent[m] != null)
  }

  /** The same but for `self`, which hangs nowhere and has got children. */
  predicate Filled(s: Shape, t: Shape, self: XMLNode) {
    && Whole(s) && Whole(t) && s.nodes <= t.nodes && self in s.nodes && t.parent[self] == null
    && (forall m :: m in s.nodes && m != self ==> SameAt(s, t, m))
    && (forall m :: m in t.nodes && m !in s.nodes ==> t.parent[m] != null)
  }

  lemma GrownBeside(s: Shape, n: XMLNode)
    requires Whole(s) && n !in s.nodes
    ensures Beside(s, WithNode(s, n), {n})
  {
  }

  lemma FilledBeside(s: Shape, t: Shape, u: Shape, n: XMLNode)
    requires Beside(s, t, {n}) && Filled(t, u, n)
    ensures Beside(s, u, {n})
  {
    forall m | m in s.nodes
      ensures SameAt(s, u, m)
    {
      assert SameAt(s, t, m) && SameAt(t, u, m);
    }
  }

  /** None of the old nodes hangs below the new root. */
  lemma {:induction false} OldStays(s: Shape, rank: map<XMLNode, nat>, t: Shape, n: XMLNode, r: set<XMLNode>, m: XMLNode)
    requires Forest(s, rank) && Beside(s, t, {n}) && Severed(t, n, r) && m in s.nodes
    ensures m !in r
    decreases Higher(s, rank, m)
  {
    hide Chain;
    assert SameAt(s, t, m) && Hangs(s, m);
    if s.parent[m] != null {
      HigherLess(s, rank, m);
      OldStays(s, rank, t, n, r, s.parent[m]);
    }
  }

  lemma BesideThenGone(s: Shape, rank: map<XMLNode, nat>, t: Shape, u: Shape, n: XMLNode, r: set<XMLNode>)
    requires Forest(s, rank) && Beside(s, t, {n}) && Pruned(t, u, r) && Severed(t, n, r)
    ensures Beside(s, u, {})
  {
    hide Forest;
    forall m | m in s.nodes
      ensures m in u.nodes && SameAt(s, u, m)
    {
      OldStays(s, rank, t, n, r, m);
      assert SameAt(s, t, m) && SameAt(t, u, m);
    }
    forall m | m in u.nodes && m !in s.nodes
      ensures u.parent[m] != null
    {
      assert SameAt(t, u, m);
    }
  }

  lemma BesideBelow(s: Shape, rank: map<XMLNode, nat>, t: Shape, roots: set<XMLNode>)
    requires Forest(s, rank) && Beside(s, t, roots)
    ensures SameBelow(s, t, s.nodes)
  {
    hide Forest;
    forall m | m in s.nodes
      ensures t.kids[m] == s.kids[m] && forall i :: 0 <= i < |s.kids[m]| ==> s.kids[m][i] in s.nodes
    {
      assert SameAt(s, t, m);
      KidsAreLower(s, rank, m);
    }
  }

  lemma FilledThenGone(s: Shape, t: Shape, u: Shape, self: XMLNode)
    requires Filled(s, t, self) && Beside(t, u, {})
    ensures Filled(s, u, self)
  {
    forall m | m in s.nodes
      ensures SameAt(t, u, m) && (m != self ==> SameAt(s, u, m))
    {
      assert m != self ==> SameAt(s, t, m);
    }
    forall m | m in u.nodes && m !in s.nodes
      ensures u.parent[m] != null
    {
      assert m in t.nodes ==> SameAt(t, u, m);
    }
  }

  /** A node read beside the document becomes the next child. */
  lemma FilledMore(s: Shape, rank: map<XMLNode, nat>, t: Shape, u: Shape, up: map<XMLNode, nat>, v: Shape, self: XMLNode, n: XMLNode)
    requires Forest(s, rank) && self in s.nodes && Whole(s) && s.kids[self] == [] && Filled(s, t, self)
    requires Beside(t, u, {n}) && Forest(u, up) && n in u.nodes && AppendedTo(u, v, self, n)
    ensures Filled(s, v, self)
  {
    hide Forest, Inserted;
    var k := |u.kids[self]|;
    assert SameAt(t, u, self);
    InsertedFields(u, self, n, k, self);
    forall m | m in s.nodes && m != self
      ensures SameAt(s, v, m)
    {
      assert SameAt(s, t, m) && SameAt(t, u, m);
      NotTheLast(s, rank, u, up, self, m);
      InsertedFields(u, self, n, k, m);
    }
    forall m | m in v.nodes && m !in s.nodes
      ensures v.parent[m] != null
    {
      assert m in t.nodes ==> SameAt(t, u, m);
      InsertedFields(u, self, n, k, m);
    }
  }

  lemma NotTheLast(s: Shape, rank: map<XMLNode, nat>, u: Shape, up: map<XMLNode, nat>, self: XMLNode, m: XMLNode)
    requires Forest(s, rank) && self in s.nodes && Whole(s) && s.kids[self] == [] && m in s.nodes
    requires Forest(u, up) && self in u.nodes && m in u.nodes && Whole(u) && u.parent[m] == s.parent[m]
    ensures m !in u.kids[self]
  {
    hide NoneTwice;
    assert Hangs(s, m) && Chain(u, self);
    forall i | 0 <= i < |u.kids[self]|
      ensures u.kids[self][i] != m
    {
      assert Placed(u, self, u.kids[self], i);
    }
  }

  // ---------- reading one node ----------

  /** How one round of the loop in XMLNode::ParseDeep goes, up to linking the node. */
  datatype DomStep = Nothing | Wrong(error: XmlError) | Tag(name: string, rest: string) | Read(node: XMLNode, rest: string)

  /** How that loop ends. */
  datatype End = Out | Broken(error: XmlError) | AtTag(name: string, rest: string)

  predicate RoundIs(round: DomStep, r: Step) {
    match r
    case NoNode => round.Nothing?
    case Fail(e) => round == Wrong(e)
    case EndTag(name, rest) => round == Tag(name, rest)
    case Got(_, rest) => round.Read? && round.rest == rest
  }

  predicate EndIs(end: End, c: Content) {
    match c
    case Ended(_) => end.Out?
    case Failed(e) => end == Broken(e)
    case AtEndTag(_, name, rest) => end == AtTag(name, rest)
  }

  function Roots(round: DomStep): set<XMLNode> {
    if round.Read? then {round.node} else {}
  }

  /** The document behind a round that began at `s`: nothing else has happened, and the node, if there is one, hangs nowhere. */
  ghost predicate RoundDone(doc: XMLDocument, s: Shape, round: DomStep, r: Step)
    reads doc, doc.live
  {
    && doc.Valid() && Beside(s, ShapeOf(doc.live), Roots(round)) && RoundIs(round, r)
    && (round.Read? ==>
          && round.node in doc.live && round.node.parent == null && round.node != doc.node && round.node.document == doc.id
          && r.Got? && Reading(ShapeOf(doc.live), doc.rank, round.node) == TreeOfNode(r.node))
  }

  /** The document behind a level that began at `s`: `self` has its children, and nothing else has happened. */
  ghost predicate LevelDone(doc: XMLDocument, s: Shape, self: XMLNode, end: End, c: Content)
    reads doc, doc.live
  {
    && doc.Valid() && Filled(s, ShapeOf(doc.live), self) && EndIs(end, c)
    && (!c.Failed? ==> ChildrenSay(ShapeOf(doc.live), doc.rank, self, TreesOfNodes(c.children)))
  }

  lemma LeafIs(kind: Kind, body: string, allowed: bool, cfg: Config)
    requires !kind.ElementKind? && (kind.TextKind? ==> body != [] && body[0] != '<')
    ensures var r := LeafStep(kind, body, allowed, cfg); (r.Got? && !r.node.Element?) || r.Fail?
  {
  }

  lemma OneMoreLost(lost: map<Pool, int>, k: Pool)
    requires k in lost
    ensures Total(lost[k := lost[k] + 1]) == Total(lost) + 1
  {
    match k {
      case ElementPool =>
      case TextPool =>
      case CommentPool =>
    }
  }

  /** A new node, beside all others. */
  method Make(doc: XMLDocument, payload: Payload) returns (n: XMLNode)
    requires doc.Valid() && !payload.DocumentNode?
    modifies doc`unlinked, doc`untracked, doc`waiting, doc`currentAllocs, doc`live, doc`rank
    ensures doc.Valid() && fresh(n) && doc.live == old(doc.live) + {n}
    ensures n.payload == payload && n.document == doc.id && n.parent == null && n.kids == [] && n != doc.node
    ensures Beside(old(ShapeOf(doc.live)), ShapeOf(doc.live), {n}) && Forest(old(ShapeOf(doc.live)), old(doc.rank))
    ensures Reading(ShapeOf(doc.live), doc.rank, n) == Tree(payload, [])
  {
    hide Forest, ShapeOf, WithNode, Beside, ChildrenSay, Reading;
    ForestOf(doc);
    ShapeIs(doc.live);
    ghost var s := ShapeOf(doc.live);
    n := doc.CreateUnlinkedNode(payload);
    GrownBeside(s, n);
    HoldsNothing(doc, n);
    HoldsAll(ShapeOf(doc.live), doc.rank, n, []);
  }

  /** After an error the node goes, with all that has been read below it. */
  method Drop(doc: XMLDocument, n: XMLNode, ghost s: Shape, ghost rank: map<XMLNode, nat>)
    requires doc.Valid() && n in doc.live && n != doc.node && n.parent == null && Forest(s, rank) && Beside(s, ShapeOf(doc.live), {n})
    modifies doc`unlinked, doc`waiting, doc`lost, doc`currentAllocs, doc`live, doc`freed, doc.live
    ensures doc.Valid() && doc.live <= old(doc.live) && Beside(s, ShapeOf(doc.live), {})
    ensures Total(doc.lost) == Total(old(doc.lost)) + 1
  {
    hide Forest, ShapeOf, Beside, Pruned, Severed, XMLDocument.Valid;
    ghost var t, L := ShapeOf(doc.live), doc.live;
    doc.DropNode(n);
    BesideThenGone(s, rank, t, ShapeOf(doc.live), n, L - doc.live);
    OneMoreLost(old(doc.lost), n.pool);
  }

  /** A node that is no element. */
  method ReadLeaf(doc: XMLDocument, kind: Kind, body: string, allowed: bool, cfg: Config) returns (round: DomStep)
    requires doc.Valid() && !kind.ElementKind? && (kind.TextKind? ==> body != [] && body[0] != '<')
    modifies doc`unlinked, doc`untracked, doc`waiting, doc`lost, doc`currentAllocs, doc`live, doc`rank, doc`freed, doc.live
    ensures RoundDone(doc, old(ShapeOf(doc.live)), round, LeafStep(kind, body, allowed, cfg)) && fresh(doc.live - old(doc.live))
    ensures round.Read? ==> LeafStep(kind, body, allowed, cfg).Got? && Shows(ShapeOf(doc.live), round.node, LeafStep(kind, body, allowed, cfg).node)
    ensures if round.Wrong? then Total(doc.lost) > Total(old(doc.lost)) else doc.lost == old(doc.lost)
  {
    hide Forest, ShapeOf, Beside, LeafStep, XMLDocument.Valid, Reading, Shows;
    LeafIs(kind, body, allowed, cfg);
    ghost var s, rank := ShapeOf(doc.live), doc.rank;
    var r := LeafStep(kind, body, allowed, cfg);
    var n := Make(doc, if r.Got? then PayloadOf(r.node) else Blank(kind));
    if r.Fail? {
      Drop(doc, n, s, rank);
      return Wrong(r.error);
    }
    NodeShows(doc, n, r.node);
    return Read(n, r.rest);
  }

  lemma NodeShows(doc: XMLDocument, x: XMLNode, n: Node)
    requires doc.Valid() && x in doc.live && Reading(ShapeOf(doc.live), doc.rank, x) == TreeOfNode(n)
    ensures Shows(ShapeOf(doc.live), x, n)
  {
    hide Forest, ShapeOf, XMLDocument.Valid, Reading, TreeOf, TreeOfNode;
    ForestOf(doc);
    ShapeIs(doc.live);
    ReadingIs(ShapeOf(doc.live), doc.rank, x);
    TreeShows(ShapeOf(doc.live), doc.rank, x, n);
  }

  // ---------- reading elements and lists ----------

  /** XMLElement::ParseDeep with all that its caller does behind it. The node of a closing tag is deleted at once, and counted as
      tracked before. */
  method ReadElement(doc: XMLDocument, s: string, depth: nat, cfg: Config) returns (round: DomStep)
    requires doc.Valid() && 1 <= depth < MAX_DEPTH
    modifies doc`unlinked, doc`untracked, doc`waiting, doc`lost, doc`currentAllocs, doc`live, doc`rank, doc`freed, doc.live
    ensures RoundDone(doc, old(ShapeOf(doc.live)), round, ParseElement(s, depth, cfg)) && fresh(doc.live - old(doc.live))
    ensures if round.Wrong? then Total(doc.lost) > Total(old(doc.lost)) else doc.lost == old(doc.lost)
    decreases |s|, 0
  {
    hide Forest, ShapeOf, Beside, XMLDocument.Valid, Reading, ParseHead, ParseElement, Level, FinishElement, Filled, Pruned, Severed, Detached, ChildrenSay;
    ghost var s0, rank0 := ShapeOf(doc.live), doc.rank;
    ElementCases(s, depth, cfg);
    match ParseHead(s, cfg) {
      case HeadFail(e) =>
        var n := Make(doc, ElementNode([], []));
        Drop(doc, n, s0, rank0);
        return Wrong(e);
      case Head(closing, name, attrs, rest) =>
        var n := Make(doc, ElementNode(name, attrs));
        match closing {
          case ClosingTag =>
            Discard(doc, n, s0, rank0);
            return Tag(name, rest);
          case Closed =>
            return Read(n, rest);
          case Open =>
            if rest == [] {
              Drop(doc, n, s0, rank0);
              return Wrong(ErrMismatched);
            }
            round := ReadNested(doc, n, name, attrs, rest, depth, cfg, s0, rank0);
        }
    }
  }

  /** The node of a closing tag. */
  method Discard(doc: XMLDocument, n: XMLNode, ghost s: Shape, ghost rank: map<XMLNode, nat>)
    requires doc.Valid() && n in doc.live && n != doc.node && n.parent == null && Forest(s, rank) && Beside(s, ShapeOf(doc.live), {n})
    modifies doc`unlinked, doc`untracked, doc`waiting, doc`currentAllocs, doc`live, doc`freed, doc.live
    ensures doc.Valid() && doc.live <= old(doc.live) && Beside(s, ShapeOf(doc.live), {})
  {
    hide Forest, ShapeOf, Beside, Pruned, Severed, XMLDocument.Valid;
    ghost var t, L := ShapeOf(doc.live), doc.live;
    FieldsOf(doc.live, n);
    doc.DeleteNode(n);
    BesideThenGone(s, rank, t, ShapeOf(doc.live), n, L - doc.live);
  }

  /** An open tag: its children are read below it, and then it is compared with the end tag that came back. */
  method ReadNested(doc: XMLDocument, n: XMLNode, name: string, attrs: seq<Attr>, rest: string, depth: nat, cfg: Config, ghost s: Shape,
                    ghost rank: map<XMLNode, nat>) returns (round: DomStep)
    requires doc.Valid() && 1 <= depth < MAX_DEPTH && n.payload == ElementNode(name, attrs)
    requires n in doc.live && n != doc.node && n.document == doc.id && n.parent == null && n.kids == []
    requires Forest(s, rank) && Beside(s, ShapeOf(doc.live), {n})
    modifies doc`unlinked, doc`untracked, doc`waiting, doc`lost, doc`currentAllocs, doc`live, doc`rank, doc`freed, doc.live
    ensures RoundDone(doc, s, round, FinishElement(name, attrs, Level(rest, depth + 1, false, cfg))) && fresh(doc.live - old(doc.live))
    ensures if round.Wrong? then Total(doc.lost) > Total(old(doc.lost)) else doc.lost == old(doc.lost)
    decreases |rest|, 4
  {
    hide Forest, ShapeOf, Beside, XMLDocument.Valid, Reading, Level, FinishElement, Filled, Pruned, Severed, ChildrenSay;
    ghost var t := ShapeOf(doc.live);
    ghost var c := Level(rest, depth + 1, false, cfg);
    var end := ParseLevel(doc, n, rest, depth + 1, false, cfg);
    FinishCases(Head(Open, name, attrs, rest), c);
    FilledBeside(s, t, ShapeOf(doc.live), n);
    FieldsOf(doc.live, n);
    if end.AtTag? && end.name == name {
      HoldsAll(ShapeOf(doc.live), doc.rank, n, TreesOfNodes(c.children));
      return Read(n, end.rest);
    }
    Drop(doc, n, s, rank);
    return Wrong(match end case Out => ErrParsing case Broken(e) => e case AtTag(_, _) => ErrMismatched);
  }

  /** The document while a level that began at `s` is being read: `self` has the children `acc`. */
  ghost predicate LevelSoFar(doc: XMLDocument, s: Shape, self: XMLNode, acc: seq<Node>)
    reads doc, doc.live
  {
    && doc.Valid() && self in doc.live && self.parent == null && Filled(s, ShapeOf(doc.live), self)
    && ChildrenSay(ShapeOf(doc.live), doc.rank, self, TreesOfNodes(acc))
  }

  /** Whether a declaration may come next, asked of the links. */
  method WellLocated(doc: XMLDocument, self: XMLNode, ghost s: Shape, ghost acc: seq<Node>) returns (b: bool)
    requires LevelSoFar(doc, s, self, acc)
    ensures b == DeclarationAllowed(self.payload.DocumentNode?, acc)
  {
    hide ShapeOf, Filled, Forest, Reading, XMLDocument.Valid;
    EndsOf(doc, self, acc);
    b := false;
    if self.payload.DocumentNode? {
      if self.firstChild != null {
        b := self.firstChild.payload.DeclarationNode? && self.lastChild != null && self.lastChild.payload.DeclarationNode?;
      } else {
        b := true;
      }
    }
  }

  lemma EndsOf(doc: XMLDocument, self: XMLNode, acc: seq<Node>)
    requires doc.Valid() && self in doc.live && ChildrenSay(ShapeOf(doc.live), doc.rank, self, TreesOfNodes(acc))
    ensures self.firstChild == null <==> acc == []
    ensures acc != [] ==> self.firstChild != null && self.lastChild != null
                          && self.firstChild.payload == PayloadOf(acc[0]) && self.lastChild.payload == PayloadOf(acc[|acc| - 1])
  {
    hide ShapeOf, Hangs, Ranked, NoneTwice, TreesOfNodes, TreesFrom;
    var t := ShapeOf(doc.live);
    FieldsOf(doc.live, self);
    ChainOf(t, doc.rank, self);
    if acc != [] {
      assert TreesOfNodes(acc)[0] == TreeOfNode(acc[0]) && TreesOfNodes(acc)[|acc| - 1] == TreeOfNode(acc[|acc| - 1]);
      assert TreeOf(t, doc.rank, t.kids[self][0]).payload == PayloadOf(acc[0]);
      assert TreeOf(t, doc.rank, t.kids[self][|acc| - 1]).payload == PayloadOf(acc[|acc| - 1]);
    }
  }

  /** Identify and the node's own ParseDeep, with all the checks behind it. */
  method ReadOne(doc: XMLDocument, self: XMLNode, t: string, depth: nat, cfg: Config, ghost s: Shape, ghost acc: seq<Node>) returns (round: DomStep)
    requires LevelSoFar(doc, s, self, acc) && 1 <= depth < MAX_DEPTH
    modifies doc`unlinked, doc`untracked, doc`waiting, doc`lost, doc`currentAllocs, doc`live, doc`rank, doc`freed, doc.live
    ensures RoundDone(doc, old(ShapeOf(doc.live)), round, ParseOne(t, depth, self.payload.DocumentNode?, acc, cfg)) && fresh(doc.live - old(doc.live))
    ensures if round.Wrong? then Total(doc.lost) > Total(old(doc.lost)) else doc.lost == old(doc.lost)
    decreases |t|, 1
  {
    hide ShapeOf, Filled, Forest, Reading, XMLDocument.Valid, ChildrenSay, Beside, ParseOne, ParseElement, LeafStep, Identify, SkipWS;
    ChildCases(t, depth, self.payload.DocumentNode?, acc, cfg);
    var u := SkipWS(t);
    if u == [] {
      NothingBeside(doc);
      return Nothing;
    }
    var kind := Identify(u);
    if kind.ElementKind? {
      round := ReadElement(doc, u[HeaderLength(kind)..], depth, cfg);
    } else {
      var allowed := WellLocated(doc, self, s, acc);
      round := ReadLeaf(doc, kind, if kind.TextKind? then t else u[HeaderLength(kind)..], allowed, cfg);
    }
  }

  lemma NothingBeside(doc: XMLDocument)
    requires doc.Valid()
    ensures Beside(ShapeOf(doc.live), ShapeOf(doc.live), {})
  {
    hide ShapeOf;
    ShapeIs(doc.live);
  }

  /** One round of the loop of ParseLevel. */
  method LevelRound(doc: XMLDocument, self: XMLNode, t: string, depth: nat, cfg: Config, ghost s: Shape, ghost rank: map<XMLNode, nat>,
                    ghost acc: seq<Node>) returns (more: bool, end: End, t': string, ghost acc': seq<Node>)
    requires LevelSoFar(doc, s, self, acc) && 1 <= depth < MAX_DEPTH && t != []
    requires Forest(s, rank) && self in s.nodes && Whole(s) && s.kids[self] == []
    modifies doc`unlinked, doc`untracked, doc`waiting, doc`lost, doc`currentAllocs, doc`live, doc`rank, doc`freed, doc.live
    ensures fresh(doc.live - old(doc.live))
    ensures self in doc.live && self.parent == null
    ensures var top := self.payload.DocumentNode?;
            var c := ParseContent(t, depth, top, acc, cfg);
            && (more ==> LevelSoFar(doc, s, self, acc') && |t'| < |t| && c == ParseContent(t', depth, top, acc', cfg))
            && (!more ==> LevelDone(doc, s, self, end, c))
    ensures if !more && end.Broken? then Total(doc.lost) > Total(old(doc.lost)) else doc.lost == old(doc.lost)
    decreases |t|, 2
  {
    hide ShapeOf, Filled, Forest, Reading, XMLDocument.Valid, ChildrenSay, Beside, ParseOne, ParseContent, TreesOfNodes, TreeOfNode;
    ContentCases(t, depth, self.payload.DocumentNode?, acc, cfg);
    more, end, t', acc' := false, Out, [], acc;
    ghost var s1, rank1 := ShapeOf(doc.live), doc.rank;
    BeforeRound(doc, self);
    ghost var r := ParseOne(t, depth, self.payload.DocumentNode?, acc, cfg);
    var round := ReadOne(doc, self, t, depth, cfg, s, acc);
    BehindRound(doc, s, s1, rank1, self, acc, Roots(round));
    match round {
      case Nothing =>
      case Wrong(e) => end := Broken(e);
      case Tag(name, rest) => end := AtTag(name, rest);
      case Read(n, rest) =>
        Link(doc, self, n, s, rank, s1, acc, r.node);
        more, t', acc' := true, rest, acc + [r.node];
    }
  }

  lemma BeforeRound(doc: XMLDocument, self: XMLNode)
    requires doc.Valid() && self in doc.live && self.parent == null
    ensures var s := ShapeOf(doc.live); Forest(s, doc.rank) && Whole(s) && self in s.nodes && s.parent[self] == null
  {
    hide ShapeOf;
    ForestOf(doc);
    ShapeIs(doc.live);
    FieldsOf(doc.live, self);
  }

  /** Reading one more node, or failing to, changes nothing about what has been read. */
  lemma BehindRound(doc: XMLDocument, s: Shape, s1: Shape, rank1: map<XMLNode, nat>, self: XMLNode, acc: seq<Node>, roots: set<XMLNode>)
    requires Whole(s1) && Forest(s1, rank1) && self in s1.nodes && s1.parent[self] == null && Filled(s, s1, self)
    requires ChildrenSay(s1, rank1, self, TreesOfNodes(acc)) && doc.Valid() && Beside(s1, ShapeOf(doc.live), roots)
    ensures self in doc.live && self.parent == null && self !in roots && ChildrenSay(ShapeOf(doc.live), doc.rank, self, TreesOfNodes(acc))
    ensures roots == {} ==> Filled(s, ShapeOf(doc.live), self)
  {
    hide ShapeOf, Filled, Forest, ChildrenSay, Beside, XMLDocument.Valid;
    var s2 := ShapeOf(doc.live);
    ForestOf(doc);
    RootStays(s1, s2, roots, self);
    ShapeIs(doc.live);
    FieldsOf(doc.live, self);
    BesideBelow(s1, rank1, s2, roots);
    ChildrenStillSay(s1, rank1, s2, doc.rank, self, TreesOfNodes(acc));
    if roots == {} {
      FilledThenGone(s, s1, s2, self);
    }
  }

  /** InsertEndChild of the node just read. */
  method Link(doc: XMLDocument, self: XMLNode, n: XMLNode, ghost s: Shape, ghost rank: map<XMLNode, nat>, ghost s1: Shape, ghost acc: seq<Node>,
              ghost x: Node)
    requires doc.Valid() && self in doc.live && self.parent == null && n in doc.live && n.parent == null
    requires n != self && n != doc.node && n.document == doc.id && Reading(ShapeOf(doc.live), doc.rank, n) == TreeOfNode(x)
    requires Forest(s, rank) && self in s.nodes && Whole(s) && s.kids[self] == []
    requires Filled(s, s1, self) && Beside(s1, ShapeOf(doc.live), {n}) && ChildrenSay(ShapeOf(doc.live), doc.rank, self, TreesOfNodes(acc))
    modifies doc`unlinked, doc`untracked, doc`waiting, doc`rank, doc.live
    ensures LevelSoFar(doc, s, self, acc + [x]) && doc.live == old(doc.live)
  {
    hide ShapeOf, Filled, Forest, Reading, XMLDocument.Valid, ChildrenSay, Beside, SameBelow, AppendedTo, TreesOfNodes, TreeOfNode;
    ghost var s2, rank2 := ShapeOf(doc.live), doc.rank;
    BeforeRound(doc, self);
    FieldsOf(doc.live, self);
    FieldsOf(doc.live, n);
    LastLives(doc, self);
    AppendRoot(doc, self, n);
    ForestOf(doc);
    FilledMore(s, rank, s1, s2, rank2, ShapeOf(doc.live), self, n);
    FieldsOf(doc.live, self);
    ShapeIs(doc.live);
    HoldsMore(s2, rank2, ShapeOf(doc.live), doc.rank, self, n, TreesOfNodes(acc));
    TreesAppend(acc, x);
  }

  lemma LastLives(doc: XMLDocument, self: XMLNode)
    requires doc.Valid() && self in doc.live
    ensures self.lastChild != null ==> self.lastChild in doc.live
  {
    hide ShapeOf, Hangs, Ranked, NoneTwice;
    FieldsOf(doc.live, self);
    ChainOf(ShapeOf(doc.live), doc.rank, self);
    if self.kids != [] {
      assert Placed(ShapeOf(doc.live), self, self.kids, |self.kids| - 1);
    }
  }

  lemma RootStays(s: Shape, t: Shape, roots: set<XMLNode>, self: XMLNode)
    requires Beside(s, t, roots) && self in s.nodes && s.parent[self] == null
    ensures self in t.nodes && self !in roots && t.parent[self] == null && t.kids[self] == s.kids[self]
  {
    assert SameAt(s, t, self);
  }

  /** XMLNode::ParseDeep of `self`, which hangs nowhere: an element, or the document itself. */
  method ParseLevel(doc: XMLDocument, self: XMLNode, s: string, depth: nat, top: bool, cfg: Config) returns (end: End)
    requires doc.Valid() && self in doc.live && self.parent == null && self.kids == [] && 1 <= depth <= MAX_DEPTH
    requires top == self.payload.DocumentNode?
    modifies doc`unlinked, doc`untracked, doc`waiting, doc`lost, doc`currentAllocs, doc`live, doc`rank, doc`freed, doc.live
    ensures LevelDone(doc, old(ShapeOf(doc.live)), self, end, Level(s, depth, top, cfg)) && fresh(doc.live - old(doc.live))
    ensures self in doc.live && self.parent == null
    ensures if end.Broken? then Total(doc.lost) >= Total(old(doc.lost)) && (depth < MAX_DEPTH ==> Total(doc.lost) > Total(old(doc.lost)))
            else doc.lost == old(doc.lost)
    decreases |s|, 3
  {
    hide ShapeOf, Filled, Forest, XMLDocument.Valid, ChildrenSay, ParseContent, Level, TreesOfNodes;
    ghost var s0, rank0 := ShapeOf(doc.live), doc.rank;
    ForestOf(doc);
    FieldsOf(doc.live, self);
    NothingFilled(doc, self);
    LevelCases(s, depth, top, cfg);
    if depth == MAX_DEPTH {
      return Broken(ErrDepth);
    }
    var t := s;
    ghost var acc := [];
    while t != []
      invariant LevelSoFar(doc, s0, self, acc) && doc.lost == old(doc.lost) && fresh(doc.live - old(doc.live)) && |t| <= |s|
      invariant ParseContent(s, depth, top, [], cfg) == ParseContent(t, depth, top, acc, cfg)
      decreases |t|
    {
      var more;
      more, end, t, acc := LevelRound(doc, self, t, depth, cfg, s0, rank0, acc);
      if !more {
        return end;
      }
    }
    ContentCases(t, depth, top, acc, cfg);
    return Out;
  }

  lemma NothingFilled(doc: XMLDocument, self: XMLNode)
    requires doc.Valid() && self in doc.live && self.parent == null && self.kids == []
    ensures LevelSoFar(doc, ShapeOf(doc.live), self, []) && self in ShapeOf(doc.live).nodes
  {
    hide ShapeOf;
    ShapeIs(doc.live);
    FieldsOf(doc.live, self);
    HoldsNothing(doc, self);
  }

  // ---------- whole documents ----------

  /** XMLDocument::Parse() over a filled buffer, in a document without children. */
  method ParseBuffer(doc: XMLDocument, s: string, cfg: Config) returns (error: Option<XmlError>)
    requires doc.Valid() && doc.node.kids == [] && doc.node.payload == DocumentNode
    modifies doc`unlinked, doc`untracked, doc`waiting, doc`lost, doc`currentAllocs, doc`live, doc`rank, doc`freed, doc.live
    ensures doc.Valid() && Filled(old(ShapeOf(doc.live)), ShapeOf(doc.live), doc.node) && fresh(doc.live - old(doc.live))
    ensures match ParseDocument(s, cfg)
            case DocFail(e) => error == Some(e)
            case Doc(_, children) => error == None && ChildrenSay(ShapeOf(doc.live), doc.rank, doc.node, TreesOfNodes(children))
    ensures if error.Some? && SkipBom(SkipWS(s)) != [] then Total(doc.lost) > Total(old(doc.lost)) else doc.lost == old(doc.lost)
  {
    hide ShapeOf, Filled, Forest, XMLDocument.Valid, ChildrenSay, ParseContent, TreesOfNodes, SkipWS, SkipBom;
    RootIs(doc);
    NothingFilled(doc, doc.node);
    var u := SkipBom(SkipWS(s));
    if u == [] {
      return Some(ErrEmptyDocument);
    }
    LevelCases(u, 1, true, cfg);
    var end := ParseLevel(doc, doc.node, u, 1, true, cfg);
    error := if end.Broken? then Some(end.error) else None;
  }

  method Empty(doc: XMLDocument)
    requires doc.Valid()
    modifies doc`unlinked, doc`untracked, doc`waiting, doc`currentAllocs, doc`live, doc`freed, doc.live
    ensures doc.Valid() && doc.live == {doc.node} && doc.node in old(doc.live) && doc.node.kids == [] && doc.unlinked == [] && doc.lost == old(doc.lost)
  {
    hide ShapeOf, Forest, XMLDocument.Valid;
    RootIs(doc);
    doc.Clear();
  }

  /** XMLDocument::LoadFile, for a file that could be read. A failed parse leaves what it has built, and the pools their wrong counts. */
  method LoadFile(doc: XMLDocument, s: string, cfg: Config) returns (error: Option<XmlError>)
    requires doc.Valid() && doc.node.payload == DocumentNode
    modifies doc`unlinked, doc`untracked, doc`waiting, doc`lost, doc`currentAllocs, doc`live, doc`rank, doc`freed, doc.live
    ensures doc.Valid() && fresh(doc.live - {doc.node})
    ensures match ParseDocument(Cut(s), cfg)
            case DocFail(e) => error == Some(e)
            case Doc(_, children) =>
              && error == None && ChildrenSay(ShapeOf(doc.live), doc.rank, doc.node, TreesOfNodes(children))
              && AllShow(ShapeOf(doc.live), doc.node.kids, children) && NodesOf(Below(ShapeOf(doc.live), doc.rank, doc.node)) == children
    ensures if error.Some? && SkipBom(SkipWS(Cut(s))) != [] then Total(doc.lost) > Total(old(doc.lost)) else doc.lost == old(doc.lost)
  {
    hide ShapeOf, Filled, Forest, XMLDocument.Valid, ChildrenSay, ParseDocument, TreesOfNodes, SkipWS, SkipBom, Cut, AllShow, NodesOf, Below;
    Empty(doc);
    if s == [] {
      NothingThere(s, cfg);
      return Some(ErrEmptyDocument);
    }
    error := ParseBuffer(doc, Cut(s), cfg);
    if error == None {
      ParsedShows(doc, Cut(s), cfg);
    }
  }

  lemma ParsedShows(doc: XMLDocument, t: string, cfg: Config)
    requires doc.Valid() && ParseDocument(t, cfg).Doc?
    requires ChildrenSay(ShapeOf(doc.live), doc.rank, doc.node, TreesOfNodes(ParseDocument(t, cfg).children))
    ensures var ns := ParseDocument(t, cfg).children;
            AllShow(ShapeOf(doc.live), doc.node.kids, ns) && NodesOf(Below(ShapeOf(doc.live), doc.rank, doc.node)) == ns
  {
    hide ParseDocument, XMLDocument.Valid, ChildrenSay, ShapeOf, Below, NodesOf, AllShow;
    DocumentShows(doc, ParseDocument(t, cfg).children);
  }

  lemma NothingThere(s: string, cfg: Config)
    requires s == [] || s[0] == NUL
    ensures Cut(s) == s[..0] && SkipBom(SkipWS(Cut(s))) == Cut(s) && ParseDocument(Cut(s), cfg) == DocFail(ErrEmptyDocument)
  {
    hide ParseContent;
    assert SkipWS(Cut(s)) == Cut(s);
  }

  /** XMLDocument::Parse of a text. When that fails nothing is left, and the pools start from zero. */
  method Parse(doc: XMLDocument, s: string, cfg: Config) returns (error: Option<XmlError>)
    requires doc.Valid() && doc.node.payload == DocumentNode
    modifies doc`unlinked, doc`untracked, doc`waiting, doc`lost, doc`currentAllocs, doc`live, doc`rank, doc`freed, doc.live
    ensures doc.Valid() && fresh(doc.live - {doc.node})
    ensures match ParseDocument(Cut(s), cfg)
            case DocFail(e) => error == Some(e) && doc.live == {doc.node} && doc.unlinked == []
            case Doc(_, children) =>
              && error == None && ChildrenSay(ShapeOf(doc.live), doc.rank, doc.node, TreesOfNodes(children))
              && AllShow(ShapeOf(doc.live), doc.node.kids, children) && NodesOf(Below(ShapeOf(doc.live), doc.rank, doc.node)) == children
    ensures if error.Some? && Cut(s) != [] then doc.untracked == doc.lost == doc.currentAllocs == NO_COUNTS else doc.lost == old(doc.lost)
  {
    hide ShapeOf, Filled, Forest, XMLDocument.Valid, ChildrenSay, ParseDocument, TreesOfNodes, SkipWS, SkipBom, Bared, Cut, AllShow, NodesOf, Below;
    Empty(doc);
    if s == [] || s[0] == NUL {
      NothingThere(s, cfg);
      return Some(ErrEmptyDocument);
    }
    ghost var before := ShapeOf(doc.live);
    ShapeIs(doc.live);
    error := ParseBuffer(doc, Cut(s), cfg);
    if error.Some? {
      GiveUp(doc, before);
    } else {
      ParsedShows(doc, Cut(s), cfg);
    }
  }

  /** What Parse does behind an error: everything it has built goes, and the pools are cleared. */
  method GiveUp(doc: XMLDocument, ghost before: Shape)
    requires doc.Valid() && Whole(before) && before.nodes == {doc.node} && Filled(before, ShapeOf(doc.live), doc.node)
    modifies doc`unlinked, doc`untracked, doc`waiting, doc`lost, doc`currentAllocs, doc`live, doc`rank, doc`freed, doc.live
    ensures doc.Valid() && doc.live == {doc.node} && doc.unlinked == []
    ensures doc.untracked == doc.lost == doc.currentAllocs == NO_COUNTS
  {
    hide ShapeOf, Filled, Forest, XMLDocument.Valid, Bared;
    ghost var t := ShapeOf(doc.live);
    RootIs(doc);
    BeforeDeleting(doc);
    doc.DeleteChildren(doc.node, {});
    NobodyLeft(doc, before, t);
    doc.ClearPools();
  }

  lemma BeforeDeleting(doc: XMLDocument)
    requires doc.Valid()
    ensures doc.Rooted() && doc.Kept({}, {})
  {
  }

  lemma FirstListed(list: seq<XMLNode>)
    ensures list != [] ==> list[0] in Elements(list)
  {
  }

  lemma NobodyLeft(doc: XMLDocument, s: Shape, t: Shape)
    requires doc.Rooted() && doc.Kept({}, {}) && Whole(s) && s.nodes == {doc.node} && Filled(s, t, doc.node) && Bared(t, ShapeOf(doc.live), doc.node)
    ensures doc.Valid() && doc.live == {doc.node} && doc.unlinked == []
  {
    hide ShapeOf, Forest, Counted, NoneTwice, XMLDocument.Split;
    var u := ShapeOf(doc.live);
    ShapeIs(doc.live);
    forall m | m in u.nodes && m != doc.node
      ensures u.parent[m] != null
    {
      assert SameAt(t, u, m);
    }
    assert Hanging(u, doc.node) == {};
    assert Elements(doc.unlinked) + {} == {};
    FirstListed(doc.unlinked);
    FieldsOf(doc.live, doc.node);
    doc.Emptied();
  }

  /** So after a LoadFile that failed, the next one succeeds but the counts are still wrong: Clear's debug assertions then fail,
      although no error has occurred since. */
  method LoadAfterFailure(bad: string, good: string, cfg: Config) returns (doc: XMLDocument)
    requires ParseDocument(Cut(bad), cfg).DocFail? && SkipBom(SkipWS(Cut(bad))) != [] && ParseDocument(Cut(good), cfg).Doc?
    ensures fresh(doc) && doc.Valid() && !Counted(doc.untracked, Elements(doc.unlinked))
  {
    hide ShapeOf, Forest, ChildrenSay, ParseDocument, TreesOfNodes, SkipWS, SkipBom, Cut, Counted;
    doc := new XMLDocument(0);
    var e1 := LoadFile(doc, bad, cfg);
    var e2 := LoadFile(doc, good, cfg);
    doc.CountIsRight();
  }

  /** A text without markup is an error, so such inputs exist. */
  lemma TextAloneFails(s: string, cfg: Config)
    requires var u := SkipBom(SkipWS(s)); u != [] && SkipWS(u) != [] && forall i :: 0 <= i < |u| ==> u[i] != '<'
    ensures ParseDocument(s, cfg) == DocFail(ErrText)
  {
    hide SkipWS, SkipBom, ParseOne, ParseContent, Find, StartsWith;
    var u := SkipBom(SkipWS(s));
    ContentCases(u, 1, true, [], cfg);
    ChildCases(u, 1, true, [], cfg);
    NoMarkup(u);
    TextCases(u, cfg);
  }

  lemma NoMarkup(u: string)
    requires u != [] && SkipWS(u) != [] && forall i :: 0 <= i < |u| ==> u[i] != '<'
    ensures Identify(SkipWS(u)).TextKind? && Find(u, "<").None?
  {
    hide SkipWS, Find, StartsWith;
    var v := SkipWS(u);
    assert v[0] == u[|u| - |v|];
    NoBracket(u, "<");
    StartsElsewhere(v, "<?");
    StartsElsewhere(v, "<!--");
    StartsElsewhere(v, "<![CDATA[");
    StartsElsewhere(v, "<!");
    StartsElsewhere(v, "<");
  }

  lemma StartsElsewhere(s: string, t: string)
    requires s != [] && t != [] && s[0] != t[0]
    ensures !StartsWith(s, t)
  {
  }

  lemma {:induction false} NoBracket(u: string, lt: string)
    requires lt == "<" && forall i :: 0 <= i < |u| ==> u[i] != '<'
    ensures Find(u, lt).None?
  {
    if u != [] {
      assert u[0] != lt[0];
      NoBracket(u[1..], lt);
    }
  }

  lemma BadExample(s: string, cfg: Config)
    requires |s| == 1 && s[0] == 'x'
    ensures Cut(s) == s && SkipBom(SkipWS(s)) == s && ParseDocument(s, cfg).DocFail?
  {
    hide ParseDocument, Cut, SkipWS, SkipBom;
    CutNulFree(s);
    RoundTrip.SkipNothing(s);
    TooShortForBom(s);
    TextAloneFails(s, cfg);
  }

  lemma TooShortForBom(s: string)
    requires |s| < 3
    ensures SkipBom(s) == s
  {
    assert |BOM| == 3;
  }

  /** An empty comment. */
  lemma GoodExample(s: string, cfg: Config)
    requires s == "<!--" + ([] + ("-->" + []))
    ensures Cut(s) == s && ParseDocument(s, cfg).Doc?
  {
    hide ParseDocument, Cut, Find, RoundTrip.NormalNode;
    CutNulFree(s);
    var c := Comment([]);
    var ns := [c];
    assert RoundTrip.NormalNode(c, 1, cfg) by {
      NothingFound(cfg);
    }
    RoundTrip.DocumentRoundTrip(false, ns, false, cfg);
    assert [] + s == s && ns[1..] == [];
    assert EmitNodes(ns[1..], LayoutAfter(c, Start(false)), [], cfg) == [];
    assert EmitNode(c, Start(false), [], cfg) == s;
    assert EmitNodes(ns, Start(false), [], cfg) == [] + s;
  }

  lemma NothingFound(cfg: Config)
    ensures RoundTrip.NormalNode(Comment([]), 1, cfg)
  {
    assert !StartsWith([], "-->");
  }

  method LoadAfterFailureExample(cfg: Config) returns (doc: XMLDocument)
    ensures fresh(doc) && doc.Valid() && !Counted(doc.untracked, Elements(doc.unlinked))
  {
    hide ShapeOf, Forest, ParseDocument, SkipWS, SkipBom, Cut, Counted;
    var bad, good := ['x'], "<!--" + ([] + ("-->" + []));
    BadExample(bad, cfg);
    GoodExample(good, cfg);
    doc := LoadAfterFailure(bad, good, cfg);
  }
}
