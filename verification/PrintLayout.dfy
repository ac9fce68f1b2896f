/** What a print looks like: compact, without any layout; pretty, line by line. */
module PrintLayout {
  import opened XmlText
  import opened XmlSyntax
  import opened RoundTrip
  import opened XmlPrinter

  function Pad(depth: nat): string {
    seq(4 * depth, _ => ' ')
  }

  /** Line breaks between the lines, and none behind the last. */
  function Glue(lines: seq<string>): string {
    if lines == [] then ""
    else if |lines| == 1 then lines[0]
    else lines[0] + ("\n" + Glue(lines[1..]))
  }

  function PrintedText(n: Node, cfg: Config): string
    requires n.Text?
  {
    if n.cdata then "<![CDATA[" + (n.value + "]]>") else Escaped(n.value, true, cfg)
  }

  function PrintedTexts(ns: seq<Node>, cfg: Config): string
    requires TextsOnly(ns)
  {
    if ns == [] then "" else PrintedText(ns[0], cfg) + PrintedTexts(ns[1..], cfg)
  }

  /** Nodes that stand on lines of their own: an element holds either texts alone or no text at all. */
  predicate Blocks(ns: seq<Node>)
    decreases ns, 0
  {
    forall i :: 0 <= i < |ns| ==> Block(ns[i])
  }

  predicate Block(n: Node)
    decreases n, 1
  {
    !n.Text? && (n.Element? ==> TextsOnly(n.children) || Blocks(n.children))
  }

  /** A tag, a comment, a declaration or an unknown on each line, indented by four blanks for each element it is in; an element with
      texts alone stands on one line. An element that is in no other has an empty line behind it. */
  function NodeLines(n: Node, depth: nat, cfg: Config): (r: seq<string>)
    requires Block(n)
    ensures r != []
    decreases n, 1
  {
    match n
    case Element(name, attrs, children) =>
      var tag := Pad(depth) + ("<" + (name + EmitAttrs(attrs, "", cfg)));
      (if children == [] then [tag + "/>"]
       else if TextsOnly(children) then [tag + (">" + (PrintedTexts(children, cfg) + ("</" + (name + ">"))))]
       else [tag + ">"] + ListLines(children, depth + 1, cfg) + [Pad(depth) + ("</" + (name + ">"))])
      + (if depth == 0 then [""] else [])
    case Comment(v) => [Pad(depth) + ("<!--" + (v + "-->"))]
    case Declaration(v) => [Pad(depth) + ("<?" + (v + "?>"))]
    case Unknown(v) => [Pad(depth) + ("<!" + (v + ">"))]
  }

  function ListLines(ns: seq<Node>, depth: nat, cfg: Config): (r: seq<string>)
    requires Blocks(ns)
    ensures ns != [] ==> r != []
    decreases ns, 0
  {
    if ns == [] then [] else NodeLines(ns[0], depth, cfg) + ListLines(ns[1..], depth, cfg)
  }

  // ---------- small steps ----------

  lemma {:induction false} IndentIsPad(depth: nat)
    ensures Indent(depth) == Pad(depth) && |Indent(depth)| == 4 * depth
  {
    if depth > 0 {
      IndentIsPad(depth - 1);
    }
  }

  lemma {:induction false} GlueAppend(a: seq<string>, b: seq<string>)
    requires a != [] && b != []
    ensures Glue(a + b) == Glue(a) + ("\n" + Glue(b))
  {
    if |a| == 1 {
      assert (a + b)[0] == a[0] && (a + b)[1..] == b;
    } else {
      assert (a + b)[0] == a[0] && (a + b)[1..] == a[1..] + b;
      GlueAppend(a[1..], b);
      Associates("\n", Glue(a[1..]), "\n" + Glue(b));
      Associates(a[0], "\n" + Glue(a[1..]), "\n" + Glue(b));
    }
  }

  lemma GlueOne(line: string)
    ensures Glue([line]) == line
  {
  }

  /** Line breaks are on, and `first` says whether any is due. */
  function Lined(depth: nat, first: bool): Layout {
    Layout(true, depth, first, -1)
  }

  function Break(first: bool): string {
    if first then "" else "\n"
  }

  lemma {:induction false} TextsAfter(ns: seq<Node>, p: Layout)
    requires TextsOnly(ns)
    ensures LayoutAfterAll(ns, p) == if ns == [] then p else p.(textDepth := p.depth - 1)
  {
    if ns != [] {
      assert ns[0].Text?;
      TextsAfter(ns[1..], LayoutAfter(ns[0], p));
    }
  }

  lemma {:induction false} BlockAfter(n: Node, depth: nat, first: bool)
    requires Block(n)
    ensures LayoutAfter(n, Lined(depth, first)) == Lined(depth, false)
    decreases n, 1
  {
    if n.Element? {
      var p := Lined(depth, first);
      assert Inside(p) == Lined(depth + 1, false);
      if TextsOnly(n.children) {
        TextsAfter(n.children, Inside(p));
      } else {
        BlocksAfter(n.children, depth + 1);
      }
    }
  }

  lemma {:induction false} BlocksAfter(ns: seq<Node>, depth: nat)
    requires Blocks(ns)
    ensures LayoutAfterAll(ns, Lined(depth, false)) == Lined(depth, false)
    decreases ns, 0
  {
    hide LayoutAfter;
    if ns != [] {
      BlockAfter(ns[0], depth, false);
      BlocksAfter(ns[1..], depth);
    }
  }

  lemma {:induction false} TextsPrinted(ns: seq<Node>, p: Layout, tail: string, cfg: Config)
    requires TextsOnly(ns)
    ensures EmitNodes(ns, p, tail, cfg) == PrintedTexts(ns, cfg) + tail
    decreases ns
  {
    hide EmitNode, EmitNodes, Escaped, LayoutAfter;
    if ns == [] {
      EmitNone(p, tail, cfg);
      assert "" + tail == tail;
    } else {
      var n, q := ns[0], LayoutAfter(ns[0], p);
      assert n.Text?;
      EmitFirst(ns, p, tail, cfg);
      TextsPrinted(ns[1..], q, tail, cfg);
      OneText(n, p, PrintedTexts(ns[1..], cfg) + tail, cfg);
      Associates(PrintedText(n, cfg), PrintedTexts(ns[1..], cfg), tail);
    }
  }

  lemma OneText(n: Node, p: Layout, tail: string, cfg: Config)
    requires n.Text?
    ensures Lead(n, p) + EmitNode(n, p, tail, cfg) == PrintedText(n, cfg) + tail
  {
    hide Escaped;
    Associates(n.value, "]]>", tail);
    Associates("<![CDATA[", n.value + "]]>", tail);
    assert [] + EmitNode(n, p, tail, cfg) == EmitNode(n, p, tail, cfg);
  }

  // ---------- the lines ----------

  lemma LeadIs(n: Node, depth: nat, first: bool)
    requires !n.Text? && (first ==> depth == 0)
    ensures Lead(n, Lined(depth, first)) == Break(first) + Pad(depth)
  {
    hide Indent;
    IndentIsPad(depth);
    if first {
      assert Pad(depth) == "" && Indent(depth) == "";
    }
  }

  /** What follows the name of a closing tag: a line break behind an element that is in no other. */
  function EmptyLine(depth: nat): seq<string> {
    if depth == 0 then [""] else []
  }

  lemma GlueEmptyLine(lines: seq<string>, depth: nat)
    requires lines != []
    ensures Glue(lines + EmptyLine(depth)) == Glue(lines) + AfterElement(Lined(depth, false))
  {
    hide Glue;
    if depth == 0 {
      GlueOne("");
      GlueAppend(lines, [""]);
      assert "\n" + "" == "\n";
    } else {
      assert lines + [] == lines && Glue(lines) + "" == Glue(lines);
    }
  }

  function TagOf(n: Node, cfg: Config): string
    requires n.Element?
  {
    "<" + (n.name + EmitAttrs(n.attrs, "", cfg))
  }

  lemma ElementLines(n: Node, depth: nat, cfg: Config)
    requires Block(n) && n.Element?
    ensures NodeLines(n, depth, cfg) == BodyLines(n, depth, cfg) + EmptyLine(depth)
  {
    hide ListLines, PrintedTexts, EmitAttrs;
  }

  function BodyLines(n: Node, depth: nat, cfg: Config): (r: seq<string>)
    requires Block(n) && n.Element?
    ensures r != []
  {
    if n.children == [] then [Pad(depth) + TagOf(n, cfg) + "/>"]
    else if TextsOnly(n.children) then [Pad(depth) + TagOf(n, cfg) + (">" + (PrintedTexts(n.children, cfg) + ("</" + (n.name + ">"))))]
    else [Pad(depth) + TagOf(n, cfg) + ">"] + ListLines(n.children, depth + 1, cfg) + [Pad(depth) + ("</" + (n.name + ">"))]
  }

  lemma LeafPrinted(n: Node, depth: nat, first: bool, cfg: Config)
    requires Block(n) && !n.Element? && (first ==> depth == 0)
    ensures Lead(n, Lined(depth, first)) + EmitNode(n, Lined(depth, first), [], cfg) == Break(first) + Glue(NodeLines(n, depth, cfg))
  {
    hide Lead, Pad, ElementEnd, Escaped;
    LeadIs(n, depth, first);
    var text := EmitNode(n, Lined(depth, first), [], cfg);
    assert "-->" + [] == "-->" && "?>" + [] == "?>" && ">" + [] == ">";
    assert NodeLines(n, depth, cfg) == [Pad(depth) + text];
    Associates(Break(first), Pad(depth), text);
  }

  /** The end of a printed element, behind its attributes. */
  lemma {:induction false} EndPrinted(n: Node, depth: nat, first: bool, cfg: Config)
    requires Block(n) && n.Element?
    ensures Pad(depth) + TagOf(n, cfg) + ElementEnd(n, Lined(depth, first), [], cfg) == Glue(NodeLines(n, depth, cfg))
    decreases n, 1
  {
    hide EmitNodes, EmitAttrs, TagOf, ListLines, PrintedTexts, Pad, NodeLines, LayoutAfterAll, Indent, Block, Blocks, TextsOnly, Glue;
    ElementLines(n, depth, cfg);
    GlueEmptyLine(BodyLines(n, depth, cfg), depth);
    BodyPrinted(n, depth, first, cfg);
  }

  lemma {:induction false} BodyPrinted(n: Node, depth: nat, first: bool, cfg: Config)
    requires Block(n) && n.Element?
    ensures Pad(depth) + TagOf(n, cfg) + ElementEnd(n, Lined(depth, first), [], cfg)
              == Glue(BodyLines(n, depth, cfg)) + AfterElement(Lined(depth, false))
    decreases n, 0
  {
    hide EmitNodes, EmitAttrs, TagOf, ListLines, PrintedTexts, Pad, LayoutAfterAll, Indent, Blocks, TextsOnly, Glue, CloseTag;
    var p, start, after := Lined(depth, first), Pad(depth) + TagOf(n, cfg), AfterElement(Lined(depth, false));
    var q := Lined(depth + 1, false);
    assert Inside(p) == q && AfterElement(p) + [] == after;
    if n.children == [] {
      GlueOne(start + "/>");
      Associates(start, "/>", after);
    } else if TextsOnly(n.children) {
      TextsAfter(n.children, q);
      TextsPrinted(n.children, q, [] + CloseTag(n.name, after), cfg);
      TextLine(start, PrintedTexts(n.children, cfg), n.name, after);
    } else {
      BlocksAfter(n.children, depth + 1);
      IndentIsPad(depth);
      ListPrinted(n.children, depth + 1, false, cfg);
      var close := "\n" + Pad(depth) + CloseTag(n.name, after);
      NodesTail(n.children, q, close, cfg);
      BlockLines(start, ListLines(n.children, depth + 1, cfg), Pad(depth), n.name, after);
    }
  }

  lemma TextLine(start: string, texts: string, name: string, after: string)
    ensures start + (">" + (texts + ([] + CloseTag(name, after)))) == Glue([start + (">" + (texts + ("</" + (name + ">"))))]) + after
  {
    var close := "</" + (name + ">");
    GlueOne(start + (">" + (texts + close)));
    CloseTail(name, [], after);
    assert CloseTag(name, []) == close && [] + after == after && [] + CloseTag(name, after) == CloseTag(name, after);
    Associates(texts, close, after);
    Associates(">", texts + close, after);
    Associates(start, ">" + (texts + close), after);
  }

  lemma BlockLines(start: string, lines: seq<string>, pad: string, name: string, after: string)
    requires lines != []
    ensures start + (">" + (("\n" + Glue(lines)) + ("\n" + pad + CloseTag(name, after))))
              == Glue([start + ">"] + lines + [pad + ("</" + (name + ">"))]) + after
  {
    hide Glue;
    var close := "</" + (name + ">");
    CloseTail(name, [], after);
    assert CloseTag(name, []) == close && [] + after == after;
    GlueOne(start + ">");
    GlueOne(pad + close);
    GlueAppend(lines, [pad + close]);
    GlueAppend([start + ">"], lines + [pad + close]);
    assert [start + ">"] + (lines + [pad + close]) == [start + ">"] + lines + [pad + close];
    var inner := Glue(lines);
    Associates("\n", pad, close + after);
    Associates(pad, close, after);
    Associates("\n", inner, "\n" + (pad + close + after));
    Associates(start, ">", "\n" + (inner + ("\n" + (pad + close + after))));
    Associates("\n", pad + close, after);
    Associates(inner, "\n" + (pad + close), after);
    Associates("\n", inner + ("\n" + (pad + close)), after);
    Associates(start + ">", "\n" + (inner + ("\n" + (pad + close))), after);
  }

  lemma {:induction false} NodePrinted(n: Node, depth: nat, first: bool, cfg: Config)
    requires Block(n) && (first ==> depth == 0)
    ensures Lead(n, Lined(depth, first)) + EmitNode(n, Lined(depth, first), [], cfg) == Break(first) + Glue(NodeLines(n, depth, cfg))
    decreases n, 2
  {
    hide Lead, EmitNode, NodeLines, Pad, Glue, TagOf, ElementEnd;
    if n.Element? {
      var p := Lined(depth, first);
      LeadIs(n, depth, first);
      EmitIsTagAndEnd(n, p, cfg);
      EndPrinted(n, depth, first, cfg);
      TagIs(n, cfg);
      Associates(Break(first), Pad(depth), TagOf(n, cfg) + ElementEnd(n, p, [], cfg));
      Associates(Pad(depth), TagOf(n, cfg), ElementEnd(n, p, [], cfg));
    } else {
      LeafPrinted(n, depth, first, cfg);
    }
  }

  lemma TagIs(n: Node, cfg: Config)
    requires n.Element?
    ensures TagOf(n, cfg) == "<" + (n.name + EmitAttrs(n.attrs, [], cfg))
  {
  }

  lemma {:induction false} ListPrinted(ns: seq<Node>, depth: nat, first: bool, cfg: Config)
    requires ns != [] && Blocks(ns) && (first ==> depth == 0)
    ensures EmitNodes(ns, Lined(depth, first), [], cfg) == Break(first) + Glue(ListLines(ns, depth, cfg))
    decreases ns, 0
  {
    hide EmitNodes, EmitNode, Lead, LayoutAfter, NodeLines, Glue, Block;
    var n, p, rest := ns[0], Lined(depth, first), ns[1..];
    var lines := NodeLines(n, depth, cfg);
    NodePrinted(n, depth, first, cfg);
    BlockAfter(n, depth, first);
    EmitFirst(ns, p, [], cfg);
    var more := EmitNodes(rest, Lined(depth, false), [], cfg);
    NodeTail(n, p, more, cfg);
    Associates(Lead(n, p), EmitNode(n, p, [], cfg), more);
    if rest == [] {
      EmitNone(Lined(depth, false), [], cfg);
      assert Break(first) + Glue(lines) + [] == Break(first) + Glue(lines) && lines + [] == lines;
    } else {
      ListPrinted(rest, depth, false, cfg);
      GlueAppend(lines, ListLines(rest, depth, cfg));
      Associates(Break(first), Glue(lines), more);
    }
  }

  /** The pretty print of a document in which no element mixes texts with other nodes, byte order mark and all: every tag, comment,
      declaration and unknown on its own line behind four blanks for each element around it. */
  lemma PrettyLines(bom: bool, ns: seq<Node>, cfg: Config)
    requires Blocks(ns)
    ensures PrintDocument(bom, ns, true, cfg)
              == (if bom then ['\U{EF}', '\U{BB}', '\U{BF}'] else []) + Glue(ListLines(ns, 0, cfg))
  {
    hide EmitNodes, ListLines, Glue, Blocks;
    if ns == [] {
      EmitNone(Start(true), [], cfg);
      NoLines(cfg);
    } else {
      ListPrinted(ns, 0, true, cfg);
      assert Break(true) + Glue(ListLines(ns, 0, cfg)) == Glue(ListLines(ns, 0, cfg));
    }
  }

  lemma NoLines(cfg: Config)
    ensures Blocks([]) && Glue(ListLines([], 0, cfg)) == ""
  {
  }

  /** Three elements, each in the one before. */
  lemma LinesExample(cfg: Config)
    ensures var c := Element("c", [], []);
            var b := Element("b", [], [c]);
            PrintDocument(false, [Element("a", [], [b])], true, cfg) == "<a>\n    <b>\n        <c/>\n    </b>\n</a>\n"
  {
    hide PrintDocument, ListLines, Blocks, Glue, Pad;
    var c := Element("c", [], []);
    var b := Element("b", [], [c]);
    var a := Element("a", [], [b]);
    ExampleBlocks(c, b, a);
    OneLine(c, 2, cfg);
    OneBlock(b, c, 1, cfg);
    OneBlock(a, b, 0, cfg);
    var inner := ["    <b>", "        <c/>", "    </b>"];
    ExamplePads();
    var lines := ["<a>"] + inner + ["</a>", ""];
    assert "<" + "c" + "/>" == "<c/>" && "<" + "b" + ">" == "<b>" && "<" + "a" + ">" == "<a>";
    assert "</" + "b" + ">" == "</b>" && "</" + "a" + ">" == "</a>";
    assert "    " + "<b>" == "    <b>" && "    " + "</b>" == "    </b>" && "        " + "<c/>" == "        <c/>";
    assert "" + "<a>" == "<a>" && "" + "</a>" == "</a>";
    assert ListLines([c], 2, cfg) == ["        <c/>"];
    assert ListLines([b], 1, cfg) == inner;
    assert ListLines([a], 0, cfg) == ["<a>"] + inner + ["</a>"] + [""] == lines;
    ExampleGlue(lines);
    PrettyLines(false, [a], cfg);
    assert [] + Glue(ListLines([a], 0, cfg)) == Glue(lines);
  }

  lemma ExampleBlocks(c: Node, b: Node, a: Node)
    requires c == Element("c", [], []) && b == Element("b", [], [c]) && a == Element("a", [], [b])
    ensures Block(c) && Block(b) && Block(a) && Blocks([c]) && Blocks([b]) && Blocks([a])
  {
    assert Block(c) && Blocks([c]) && Blocks(b.children);
    assert Block(b) && Blocks([b]) && Blocks(a.children);
  }

  lemma ExamplePads()
    ensures Pad(0) == "" && Pad(1) == "    " && Pad(2) == "        "
  {
  }

  lemma OneLine(n: Node, depth: nat, cfg: Config)
    requires Blocks([n]) && n.Element? && n.attrs == [] && n.children == [] && depth > 0
    ensures ListLines([n], depth, cfg) == [Pad(depth) + ("<" + n.name + "/>")]
  {
    var ns := [n];
    assert ns[0] == n && Block(n) && ns[1..] == [];
    assert EmitAttrs(n.attrs, "", cfg) == "";
    assert n.name + "" == n.name;
    var line := Pad(depth) + ("<" + n.name + "/>");
    assert Pad(depth) + ("<" + n.name) + "/>" == line;
    assert [line] + [] == [line];
    assert NodeLines(n, depth, cfg) == [line] && ListLines(ns[1..], depth, cfg) == [];
  }

  lemma OneBlock(n: Node, child: Node, depth: nat, cfg: Config)
    requires Blocks([n]) && n.Element? && n.attrs == [] && n.children == [child] && child.Element?
    ensures Blocks([child])
    ensures ListLines([n], depth, cfg) == [Pad(depth) + ("<" + n.name + ">")] + ListLines([child], depth + 1, cfg)
                                          + [Pad(depth) + ("</" + n.name + ">")] + (if depth == 0 then [""] else [])
  {
    var ns, kids := [n], [child];
    assert ns[0] == n && Block(n) && ns[1..] == [] && n.children == kids && kids[0] == child;
    assert !TextsOnly(kids);
    assert EmitAttrs(n.attrs, "", cfg) == "";
    assert n.name + "" == n.name;
    assert Pad(depth) + ("<" + n.name) + ">" == Pad(depth) + ("<" + n.name + ">");
    assert ("</" + (n.name + ">")) == "</" + n.name + ">";
  }

  lemma OneMoreLine(line: string, lines: seq<string>)
    requires lines != []
    ensures Glue([line] + lines) == line + "\n" + Glue(lines)
  {
    hide Glue;
    GlueOne(line);
    GlueAppend([line], lines);
    Associates(line, "\n", Glue(lines));
  }

  lemma ExampleGlue(lines: seq<string>)
    requires lines == ["<a>", "    <b>", "        <c/>", "    </b>", "</a>", ""]
    ensures Glue(lines) == "<a>\n    <b>\n        <c/>\n    </b>\n</a>\n"
  {
    hide Glue;
    var l2, l3, l4, l5 := ["    <b>", "        <c/>", "    </b>", "</a>", ""], ["        <c/>", "    </b>", "</a>", ""], ["    </b>", "</a>", ""], ["</a>", ""];
    GlueOne("");
    assert ["</a>"] + [""] == l5 && ["    </b>"] + l5 == l4 && ["        <c/>"] + l4 == l3 && ["    <b>"] + l3 == l2 && ["<a>"] + l2 == lines;
    OneMoreLine("</a>", [""]);
    OneMoreLine("    </b>", l5);
    OneMoreLine("        <c/>", l4);
    OneMoreLine("    <b>", l3);
    OneMoreLine("<a>", l2);
    SixLines();
  }

  lemma SixLines()
    ensures "<a>" + "\n" + ("    <b>" + "\n" + ("        <c/>" + "\n" + ("    </b>" + "\n" + ("</a>" + "\n" + ""))))
              == "<a>\n    <b>\n        <c/>\n    </b>\n</a>\n"
  {
  }

  // ---------- compact ----------

  /** A node as it is printed without layout. */
  function CompactText(n: Node, cfg: Config): string
    decreases n, 1
  {
    match n
    case Element(name, attrs, children) =>
      "<" + (name + EmitAttrs(attrs, "", cfg)) + if children == [] then "/>" else ">" + (CompactTexts(children, cfg) + ("</" + (name + ">")))
    case Text(v, cdata) => if cdata then "<![CDATA[" + (v + "]]>") else Escaped(v, true, cfg)
    case Comment(v) => "<!--" + (v + "-->")
    case Declaration(v) => "<?" + (v + "?>")
    case Unknown(v) => "<!" + (v + ">")
  }

  function CompactTexts(ns: seq<Node>, cfg: Config): string
    decreases ns, 0
  {
    if ns == [] then "" else CompactText(ns[0], cfg) + CompactTexts(ns[1..], cfg)
  }

  lemma {:induction false} CompactNode(n: Node, p: Layout, cfg: Config)
    requires !p.pretty
    ensures Lead(n, p) == "" && EmitNode(n, p, [], cfg) == CompactText(n, cfg) && !LayoutAfter(n, p).pretty
    decreases n, 1
  {
    hide EmitNodes, CompactTexts, EmitAttrs, Escaped, LayoutAfterAll;
    AfterKeeps(n, p);
    assert "]]>" + [] == "]]>" && "-->" + [] == "-->" && "?>" + [] == "?>" && ">" + [] == ">";
    match n {
      case Element(name, attrs, children) =>
        EmitIsTagAndEnd(n, p, cfg);
        AfterAllKeeps(children, Inside(p));
        CompactNodes(children, Inside(p), cfg);
        NodesTail(children, Inside(p), "" + CloseTag(name, []), cfg);
        assert [] + CloseTag(name, []) == "</" + (name + ">") && "/>" + [] == "/>";
      case Text(v, cdata) => assert Escaped(v, true, cfg) + [] == Escaped(v, true, cfg);
      case _ =>
    }
  }

  lemma {:induction false} CompactNodes(ns: seq<Node>, p: Layout, cfg: Config)
    requires !p.pretty
    ensures EmitNodes(ns, p, [], cfg) == CompactTexts(ns, cfg)
    decreases ns, 0
  {
    hide EmitNode, EmitNodes, CompactText, Lead, LayoutAfter;
    if ns == [] {
      EmitNone(p, [], cfg);
    } else {
      var more := EmitNodes(ns[1..], LayoutAfter(ns[0], p), [], cfg);
      EmitFirst(ns, p, [], cfg);
      CompactNode(ns[0], p, cfg);
      NodeTail(ns[0], p, more, cfg);
      CompactNodes(ns[1..], LayoutAfter(ns[0], p), cfg);
      assert "" + EmitNode(ns[0], p, more, cfg) == EmitNode(ns[0], p, more, cfg);
    }
  }

  /** The compact print of any document. */
  lemma CompactPrint(bom: bool, ns: seq<Node>, cfg: Config)
    ensures PrintDocument(bom, ns, false, cfg) == (if bom then ['\U{EF}', '\U{BB}', '\U{BF}'] else []) + CompactTexts(ns, cfg)
  {
    hide EmitNodes, CompactTexts;
    CompactNodes(ns, Start(false), cfg);
  }

  // ---------- attributes and texts ----------

  /** Attributes are printed in order, each behind a blank and with its value between quotes; values and texts are escaped when
      entities are processed, and printed as they are otherwise. */
  lemma {:induction false} AttrsPrinted(attrs: seq<Attr>, name: string, value: string, cfg: Config)
    ensures EmitAttrs([], "", cfg) == "" && Escaped(value, true, cfg) == if cfg.processEntities then Escape(value, true) else value
    ensures EmitAttrs(attrs + [Attr(name, value)], "", cfg)
              == EmitAttrs(attrs, "", cfg) + (" " + (name + ("=\"" + ((if cfg.processEntities then Escape(value, false) else value) + "\""))))
  {
    hide Escape;
    var one := Attr(name, value);
    var printed := " " + (name + ("=\"" + (Escaped(value, false, cfg) + "\"")));
    if attrs == [] {
      assert attrs + [one] == [one] && [one][1..] == [] && EmitAttrs([one][1..], "", cfg) == "";
      assert "\"" + "" == "\"" && "" + printed == printed;
    } else {
      AttrsPrinted(attrs[1..], name, value, cfg);
      assert (attrs + [one])[0] == attrs[0] && (attrs + [one])[1..] == attrs[1..] + [one];
      AttrLast(attrs[0].name, Escaped(attrs[0].value, false, cfg), EmitAttrs(attrs[1..], "", cfg), printed);
    }
  }

  lemma AttrLast(name: string, v: string, rest: string, last: string)
    ensures " " + (name + ("=\"" + (v + ("\"" + (rest + last))))) == " " + (name + ("=\"" + (v + ("\"" + rest)))) + last
  {
    Associates("\"", rest, last);
    Associates(v, "\"" + rest, last);
    Associates("=\"", v + ("\"" + rest), last);
    Associates(name, "=\"" + (v + ("\"" + rest)), last);
    Associates(" ", name + ("=\"" + (v + ("\"" + rest))), last);
  }

  /** A quotation mark is escaped in a value and printed as it is in a text; without entity processing nothing is escaped. */
  lemma QuoteExample(c: bool)
    ensures var n := Element("a", [Attr("k", "\"&")], [Text("\"&", false)]);
            && PrintDocument(false, [n], false, Config(true, c)) == "<a k=\"" + "&quot;&amp;" + "\">" + "\"&amp;" + "</a>"
            && PrintDocument(false, [n], false, Config(false, c)) == "<a k=\"" + "\"&" + "\">" + "\"&" + "</a>"
  {
    hide PrintDocument, Escape;
    var v: string := "\"&";
    QuoteEscaped(v);
    OneAttrPrint(v, "&quot;&amp;", "\"&amp;", Config(true, c));
    OneAttrPrint(v, v, v, Config(false, c));
  }

  lemma QuoteEscaped(v: string)
    requires v == "\"&"
    ensures Escape(v, false) == "&quot;&amp;" && Escape(v, true) == "\"&amp;"
  {
    var none: string, amp := [], "&";
    assert Escape(none, false) == "" && Escape(none, true) == "";
    hide Escape;
    assert "&" + none == amp && "\"" + amp == v;
    PrintedForms(none);
    PrintedForms(amp);
    assert "&amp;" + "" == "&amp;" && "&quot;" + "&amp;" == "&quot;&amp;" && "\"" + "&amp;" == "\"&amp;";
  }

  lemma OneAttrPrint(v: string, value: string, text: string, cfg: Config)
    requires Escaped(v, false, cfg) == value && Escaped(v, true, cfg) == text
    ensures PrintDocument(false, [Element("a", [Attr("k", v)], [Text(v, false)])], false, cfg) == "<a k=\"" + value + "\">" + text + "</a>"
  {
    hide PrintDocument, Escape, Escaped;
    var attrs, kids := [Attr("k", v)], [Text(v, false)];
    var ns := [Element("a", attrs, kids)];
    CompactPrint(false, ns, cfg);
    assert attrs[1..] == [] && EmitAttrs(attrs[1..], "", cfg) == "";
    assert EmitAttrs(attrs, "", cfg) == " " + ("k" + ("=\"" + (value + ("\"" + ""))));
    assert kids[1..] == [] && CompactTexts(kids[1..], cfg) == "" && CompactText(kids[0], cfg) == text;
    assert CompactTexts(kids, cfg) == text + "" == text;
    assert ns[1..] == [] && CompactTexts(ns[1..], cfg) == "";
    assert CompactTexts(ns, cfg) == CompactText(ns[0], cfg) + "" == CompactText(ns[0], cfg);
    assert CompactText(ns[0], cfg) == "<" + ("a" + (" " + ("k" + ("=\"" + (value + ("\"" + "")))))) + (">" + (text + ("</" + ("a" + ">"))));
    assert "<" + ("a" + (" " + ("k" + ("=\"" + (value + ("\"" + "")))))) == "<a k=\"" + value + "\"";
    assert ">" + (text + ("</" + ("a" + ">"))) == ">" + text + "</a>";
    assert ("<a k=\"" + value + "\"") + (">" + text + "</a>") == "<a k=\"" + value + "\">" + text + "</a>";
    assert [] + CompactTexts(ns, cfg) == CompactTexts(ns, cfg);
  }
}
