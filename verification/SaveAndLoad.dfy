/** Printing a document into memory, parsing that memory and reading the tree: the code of all three together. */
module SaveAndLoad {
  import opened XmlUtil
  import opened XmlText
  import opened XmlSyntax
  import opened RoundTrip
  import opened StrPairs
  import opened XmlPrinter
  import opened XmlParser

  // ---------- a print is one C string ----------

  lemma AddedNulFree(a: string, b: string)
    requires NulFree(a) && NulFree(b)
    ensures NulFree(a + b)
  {
  }

  lemma EscapedNulFree(v: string, restricted: bool, cfg: Config)
    requires NulFree(v)
    ensures NulFree(Escaped(v, restricted, cfg))
  {
    EscapeHides(v, restricted, NUL);
  }

  lemma {:induction false} AttrsNulFree(attrs: seq<Attr>, tail: string, cfg: Config)
    requires NormalAttrs(attrs, cfg) && NulFree(tail)
    ensures NulFree(EmitAttrs(attrs, tail, cfg))
  {
    hide Escaped, NulFree;
    if attrs != [] {
      var name, value := attrs[0].name, Escaped(attrs[0].value, false, cfg);
      NormalAttrsStep(attrs, cfg);
      AttrsNulFree(attrs[1..], tail, cfg);
      NameNulFree(name);
      EscapedNulFree(attrs[0].value, false, cfg);
      Enclosed("\"", EmitAttrs(attrs[1..], tail, cfg));
      AddedNulFree(value, "\"" + EmitAttrs(attrs[1..], tail, cfg));
      Enclosed("=\"", value + ("\"" + EmitAttrs(attrs[1..], tail, cfg)));
      AddedNulFree(name, "=\"" + (value + ("\"" + EmitAttrs(attrs[1..], tail, cfg))));
      Enclosed(" ", name + ("=\"" + (value + ("\"" + EmitAttrs(attrs[1..], tail, cfg)))));
    }
  }

  lemma NameNulFree(name: string)
    requires ValidName(name)
    ensures NulFree(name)
  {
  }

  /** The fixed pieces of the syntax. */
  lemma Enclosed(piece: string, s: string)
    requires NulFree(s) && forall i :: 0 <= i < |piece| ==> piece[i] in " \"=<>/!-[]CDAT?"
    ensures NulFree(piece + s)
  {
    assert NUL !in " \"=<>/!-[]CDAT?";
  }

  lemma {:induction false} NodeNulFree(n: Node, depth: nat, p: Layout, tail: string, cfg: Config)
    requires NormalNode(n, depth, cfg) && NulFree(tail)
    ensures NulFree(EmitNode(n, p, tail, cfg)) && TextsNulFree(n)
    decreases n, 1
  {
    hide NulFree, Escaped, EmitNodes, EmitAttrs, NormalAttrs, Indent, NoAdjacentText, NoDeclaration, Find, StartsWith, CrFree, AllBlank, LayoutAfterAll;
    match n {
      case Element(name, attrs, children) =>
        var q, after := Inside(p), AfterElement(p) + tail;
        LayoutNulFree(LayoutAfterAll(children, q), p.depth);
        LayoutNulFree(p, p.depth);
        AddedNulFree(AfterElement(p), tail);
        CloseNulFree(name, after);
        var close := BeforeClose(LayoutAfterAll(children, q), p.depth) + CloseTag(name, after);
        AddedNulFree(BeforeClose(LayoutAfterAll(children, q), p.depth), CloseTag(name, after));
        NodesNulFree(children, depth + 1, q, close, cfg);
        ValuesAreNulFree(attrs, cfg);
        Enclosed("/>", after);
        Enclosed(">", EmitNodes(children, q, close, cfg));
        var end := ElementEnd(n, p, tail, cfg);
        AttrsNulFree(attrs, end, cfg);
        NameNulFree(name);
        AddedNulFree(name, EmitAttrs(attrs, end, cfg));
        Enclosed("<", name + EmitAttrs(attrs, end, cfg));
      case Text(v, cdata) =>
        MarkupNulFree("<![CDATA[", v, "]]>", tail);
        EscapedNulFree(v, true, cfg);
        AddedNulFree(Escaped(v, true, cfg), tail);
      case Comment(v) => MarkupNulFree("<!--", v, "-->", tail);
      case Declaration(v) => MarkupNulFree("<?", v, "?>", tail);
      case Unknown(v) => MarkupNulFree("<!", v, ">", tail);
    }
  }

  lemma ValuesAreNulFree(attrs: seq<Attr>, cfg: Config)
    requires NormalAttrs(attrs, cfg)
    ensures ValuesNulFree(attrs)
  {
  }

  lemma LayoutNulFree(p: Layout, depth: nat)
    ensures NulFree(AfterElement(p)) && NulFree(BeforeClose(p, depth))
  {
    AddedNulFree("\n", Indent(depth));
  }

  lemma LeadNulFree(n: Node, p: Layout)
    ensures NulFree(Lead(n, p))
  {
    AddedNulFree("\n", Indent(p.depth));
  }

  lemma CloseNulFree(name: string, tail: string)
    requires ValidName(name) && NulFree(tail)
    ensures NulFree(CloseTag(name, tail))
  {
    NameNulFree(name);
    Enclosed(">", tail);
    AddedNulFree(name, ">" + tail);
    Enclosed("</", name + (">" + tail));
  }

  lemma MarkupNulFree(open: string, v: string, close: string, tail: string)
    requires NulFree(v) && NulFree(tail)
    requires forall i :: 0 <= i < |open| ==> open[i] in " \"=<>/!-[]CDAT?"
    requires forall i :: 0 <= i < |close| ==> close[i] in " \"=<>/!-[]CDAT?"
    ensures NulFree(open + (v + (close + tail)))
  {
    Enclosed(close, tail);
    AddedNulFree(v, close + tail);
    Enclosed(open, v + (close + tail));
  }

  lemma {:induction false} NodesNulFree(ns: seq<Node>, depth: nat, p: Layout, tail: string, cfg: Config)
    requires (forall i :: 0 <= i < |ns| ==> NormalNode(ns[i], depth, cfg)) && NulFree(tail)
    ensures NulFree(EmitNodes(ns, p, tail, cfg))
    ensures forall i :: 0 <= i < |ns| ==> TextsNulFree(ns[i])
    decreases ns, 0
  {
    hide NulFree, EmitNode, NormalNode, TextsNulFree, Lead, LayoutAfter;
    if ns != [] {
      var rest := EmitNodes(ns[1..], LayoutAfter(ns[0], p), tail, cfg);
      NodesNulFree(ns[1..], depth, LayoutAfter(ns[0], p), tail, cfg);
      NodeNulFree(ns[0], depth, p, rest, cfg);
      LeadNulFree(ns[0], p);
      AddedNulFree(Lead(ns[0], p), EmitNode(ns[0], p, rest, cfg));
    }
  }

  // ---------- reading the tree ----------

  /** The tree as its users see it: every string is asked for with GetStr. Reading changes the buffer, but no string. */
  method ReadNode(mem: array<char>, x: XNode, ghost M: map<StrPair, Snap>) returns (n: Node)
    requires Covered(x, M) && Agrees(M, mem, mem[..]) && Disjoint(M) && InRange(M, 0, mem.Length)
    modifies mem, M.Keys
    ensures n == Shown(x, M) && Agrees(M, mem, mem[..])
    decreases x, 1
  {
    hide Agrees, Disjoint, InRange, NodesCovered, ShownNodes;
    var v := ReadPair(mem, x.value, M);
    match x {
      case XElement(_, attrs, children) =>
        var shown := ReadAttrs(mem, attrs, M);
        var nodes := ReadNodes(mem, children, M);
        n := Element(v, shown, nodes);
      case XText(_, cdata) => n := Text(v, cdata);
      case XComment(_) => n := Comment(v);
      case XDeclaration(_) => n := Declaration(v);
      case XUnknown(_) => n := Unknown(v);
    }
  }

  method ReadAttrs(mem: array<char>, attrs: seq<XAttr>, ghost M: map<StrPair, Snap>) returns (shown: seq<Attr>)
    requires AttrsCovered(attrs, M) && Agrees(M, mem, mem[..]) && Disjoint(M) && InRange(M, 0, mem.Length)
    modifies mem, M.Keys
    ensures shown == ShownAttrs(attrs, M) && Agrees(M, mem, mem[..])
  {
    hide Agrees, Disjoint, InRange;
    shown := [];
    for i := 0 to |attrs|
      invariant |shown| == i && forall j :: 0 <= j < i ==> shown[j] == ShownAttr(attrs[j], M)
      invariant Agrees(M, mem, mem[..])
    {
      var name := ReadPair(mem, attrs[i].name, M);
      var value := ReadPair(mem, attrs[i].value, M);
      shown := shown + [Attr(name, value)];
    }
  }

  method ReadNodes(mem: array<char>, xs: seq<XNode>, ghost M: map<StrPair, Snap>) returns (nodes: seq<Node>)
    requires NodesCovered(xs, M) && Agrees(M, mem, mem[..]) && Disjoint(M) && InRange(M, 0, mem.Length)
    modifies mem, M.Keys
    ensures nodes == ShownNodes(xs, M) && Agrees(M, mem, mem[..])
    decreases xs, 0
  {
    hide Agrees, Disjoint, InRange, Covered, Shown;
    nodes := [];
    if xs != [] {
      var n := ReadNode(mem, xs[0], M);
      var ns := ReadNodes(mem, xs[1..], M);
      nodes := [n] + ns;
    }
  }

  // ---------- both together ----------

  /** Saving a normal document and loading the text again gives the document with the layout that was written next to its texts, in both
      layouts and every configuration: the document itself exactly if there is no such layout or white space is collapsed. */
  method SaveThenLoad(bom: bool, children: seq<Node>, compact: bool, cfg: Config)
    returns (error: Option<XmlError>, bom': bool, children': seq<Node>)
    requires NormalDocument(bom, children, cfg)
    ensures error == None && bom' == bom && children' == Padded(children, [], Start(!compact), cfg)
    ensures children' == children <==> compact || cfg.collapse || ApartFromLayout(children)
  {
    hide NormalNode, TextsNulFree, EmitNodes, ParseDocument, NodesRead, Padded, ApartFromLayout;
    NodesNulFree(children, 1, Start(!compact), [], cfg);
    DocumentRoundTrip(bom, children, !compact, cfg);
    PrintIsCString(bom, children, !compact, cfg);
    var printer := new Printer(compact);
    printer.AcceptDocument(bom, children, cfg);
    var document := new Document(cfg);
    var mem, xs;
    ghost var M;
    mem, xs, M := document.Parse(printer.buffer);
    ghost var read := Padded(children, [], Start(!compact), cfg);
    assert NodesRead(mem, mem[..], 0, mem.Length, xs, M, read);
    children' := ReadAll(mem, xs, M, read);
    error, bom' := document.error, document.writeBOM;
  }

  method ReadAll(mem: array<char>, xs: seq<XNode>, ghost M: map<StrPair, Snap>, ghost nodes: seq<Node>) returns (read: seq<Node>)
    requires NodesRead(mem, mem[..], 0, mem.Length, xs, M, nodes)
    modifies mem, M.Keys
    ensures read == nodes
  {
    read := ReadNodes(mem, xs, M);
  }

  lemma PrintIsCString(bom: bool, children: seq<Node>, pretty: bool, cfg: Config)
    requires NormalDocument(bom, children, cfg)
    ensures Cut(PrintDocument(bom, children, pretty, cfg)) == PrintDocument(bom, children, pretty, cfg)
  {
    hide NormalNode, EmitNodes;
    NodesNulFree(children, 1, Start(pretty), [], cfg);
    BomNulFree();
    CutNulFree(PrintDocument(bom, children, pretty, cfg));
  }
}
