/** tinyxml2's XMLPrinter writing to memory. Its buffer is a text; the terminating NUL is not kept. */
module XmlPrinter {
  import opened XmlUtil
  import opened XmlText
  import opened XmlSyntax
  import opened StrPairs

  const ENTITY_RANGE: int := 64

  /** The two flag tables that the constructor fills. */
  predicate Flagged(c: char, restricted: bool) {
    c == '&' || c == '<' || c == '>' || (!restricted && (c == '"' || c == '\''))
  }

  lemma EscapeOfFlagged(c: char, restricted: bool, i: nat)
    requires Flagged(c, restricted) && i < NUM_ENTITIES && EntityValue(i) == c
    ensures EscapeChar(c, restricted) == ("&" + Pattern(i)) + ";"
  {
  }

  lemma SomeEntity(c: char, restricted: bool)
    requires Flagged(c, restricted)
    ensures exists i: nat :: i < NUM_ENTITIES && EntityValue(i) == c
  {
    assert EntityValue(0) == '"' && EntityValue(1) == '&' && EntityValue(2) == '\'' && EntityValue(3) == '<' && EntityValue(4) == '>';
  }

  // ---------- text behind a printed node ----------

  lemma {:induction false} AttrsTail(attrs: seq<Attr>, tail: string, cfg: Config)
    ensures EmitAttrs(attrs, tail, cfg) == EmitAttrs(attrs, [], cfg) + tail
  {
    if attrs != [] {
      AttrsTail(attrs[1..], tail, cfg);
      var n, v, rest := attrs[0].name, Escaped(attrs[0].value, false, cfg), EmitAttrs(attrs[1..], [], cfg);
      AttrAssociates(n, v, rest, tail);
      hide Escaped;
    }
  }

  lemma AttrAssociates(n: string, v: string, rest: string, tail: string)
    ensures " " + (n + ("=\"" + (v + ("\"" + (rest + tail))))) == (" " + (n + ("=\"" + (v + ("\"" + rest))))) + tail
  {
    Associates("\"", rest, tail);
    Associates(v, "\"" + rest, tail);
    Associates("=\"", v + ("\"" + rest), tail);
    Associates(n, "=\"" + (v + ("\"" + rest)), tail);
    Associates(" ", n + ("=\"" + (v + ("\"" + rest))), tail);
  }

  lemma {:induction false} NodeTail(n: Node, p: Layout, tail: string, cfg: Config)
    ensures EmitNode(n, p, tail, cfg) == EmitNode(n, p, [], cfg) + tail
    decreases n, 1
  {
    hide EmitNodes, EmitAttrs, Escaped, ElementEnd;
    match n {
      case Element(name, attrs, children) =>
        var e0, e1 := ElementEnd(n, p, [], cfg), ElementEnd(n, p, tail, cfg);
        EndTail(n, p, tail, cfg);
        AttrsTail(attrs, e0, cfg);
        AttrsTail(attrs, e1, cfg);
        var x := EmitAttrs(attrs, [], cfg);
        Associates(x, e0, tail);
        Associates(name, x + e0, tail);
        Associates("<", name + (x + e0), tail);
      case Text(v, cdata) =>
        if cdata {
          MarkupTail("<![CDATA[", v, "]]>", tail);
        } else {
          assert Escaped(v, true, cfg) + [] == Escaped(v, true, cfg);
        }
      case Comment(v) => MarkupTail("<!--", v, "-->", tail);
      case Declaration(v) => MarkupTail("<?", v, "?>", tail);
      case Unknown(v) => MarkupTail("<!", v, ">", tail);
    }
  }

  lemma MarkupTail(h: string, v: string, t: string, tail: string)
    ensures h + (v + (t + tail)) == (h + (v + (t + []))) + tail
  {
    assert t + [] == t;
    Associates(v, t, tail);
    Associates(h, v + t, tail);
  }

  lemma {:induction false} EndTail(n: Node, p: Layout, tail: string, cfg: Config)
    requires n.Element?
    ensures ElementEnd(n, p, tail, cfg) == ElementEnd(n, p, [], cfg) + tail
    decreases n, 0
  {
    hide EmitNodes, AfterElement, BeforeClose, CloseTag, Indent, LayoutAfterAll;
    var a, b := AfterElement(p), BeforeClose(LayoutAfterAll(n.children, Inside(p)), p.depth);
    assert a + [] == a;
    if n.children == [] {
      Associates("/>", a, tail);
    } else {
      CloseTail(n.name, a, tail);
      Associates(b, CloseTag(n.name, a), tail);
      var close := b + CloseTag(n.name, a);
      var inner := EmitNodes(n.children, Inside(p), [], cfg);
      NodesTail(n.children, Inside(p), close, cfg);
      NodesTail(n.children, Inside(p), close + tail, cfg);
      Associates(inner, close, tail);
      Associates(">", inner + close, tail);
    }
  }

  lemma CloseTail(name: string, a: string, tail: string)
    ensures CloseTag(name, a + tail) == CloseTag(name, a) + tail
  {
    Associates(">", a, tail);
    Associates(name, ">" + a, tail);
    Associates("</", name + (">" + a), tail);
  }

  lemma {:induction false} NodesTail(ns: seq<Node>, p: Layout, tail: string, cfg: Config)
    ensures EmitNodes(ns, p, tail, cfg) == EmitNodes(ns, p, [], cfg) + tail
    decreases ns, 0
  {
    hide EmitNode, Lead, LayoutAfter;
    if ns != [] {
      var q := LayoutAfter(ns[0], p);
      var r0, r1 := EmitNodes(ns[1..], q, [], cfg), EmitNodes(ns[1..], q, tail, cfg);
      NodesTail(ns[1..], q, tail, cfg);
      NodeTail(ns[0], p, r0, cfg);
      NodeTail(ns[0], p, r1, cfg);
      var l, e := Lead(ns[0], p), EmitNode(ns[0], p, [], cfg);
      Associates(e, r0, tail);
      Associates(l, e + r0, tail);
    }
  }

  // ---------- the printer ----------

  class Printer {
    var elementJustOpened: bool
    var stack: seq<string>
    var firstElement: bool
    var depth: nat
    var textDepth: int
    var processEntities: bool
    const compactMode: bool
    var buffer: string

    ghost predicate Valid()
      reads this
    {
      depth == |stack| && (firstElement ==> depth == 0 && textDepth < 0)
    }

    ghost function Cfg(): Config
      reads this
    {
      Config(processEntities, false)
    }

    ghost function Now(): Layout
      reads this
    {
      Layout(!compactMode, depth, firstElement, textDepth)
    }

    ghost function Pending(): string
      reads this
    {
      if elementJustOpened then ">" else []
    }

    constructor (compact: bool)
      ensures Valid() && buffer == [] && !elementJustOpened && firstElement && depth == 0 && textDepth == -1
      ensures processEntities && compactMode == compact
    {
      elementJustOpened, stack, firstElement, depth, textDepth := false, [], true, 0, -1;
      processEntities, compactMode, buffer := true, compact, [];
    }

    method Write(data: string)
      modifies this`buffer
      ensures buffer == old(buffer) + data
    {
      buffer := buffer + data;
    }

    method Putc(c: char)
      modifies this`buffer
      ensures buffer == old(buffer) + [c]
    {
      buffer := buffer + [c];
    }

    method PrintSpace(n: nat)
      modifies this`buffer
      ensures buffer == old(buffer) + Indent(n)
    {
      for i := 0 to n
        invariant buffer + Indent(n - i) == old(buffer) + Indent(n)
      {
        Associates(buffer, "    ", Indent(n - i - 1));
        Write("    ");
      }
      assert buffer + [] == buffer;
    }

    /** Runs of ordinary characters are copied as a whole; p is where the pending run starts, q where the scan stands. */
    method PrintString(s: string, restricted: bool)
      requires NulFree(s)
      modifies this`buffer
      ensures buffer == old(buffer) + Escaped(s, restricted, Cfg())
    {
      if !processEntities {
        Write(s);
        return;
      }
      hide Escape, EscapeChar;
      var p, q := 0, 0;
      ghost var goal := buffer + Escape(s, restricted);
      assert buffer + s[0..0] == buffer && s[0..] == s;
      while q < |s|
        invariant 0 <= p <= q <= |s|
        invariant (buffer + s[p..q]) + Escape(s[q..], restricted) == goal
      {
        p := PrintOne(s, p, q, restricted, goal);
        q := q + 1;
      }
      if p < q {
        Write(s[p..q]);
      }
      NothingToEscape(s[q..], restricted, buffer);
    }

    /** The character at q: it waits with the run, or the run and its entity are written. */
    method PrintOne(s: string, p0: nat, q: nat, restricted: bool, ghost goal: string) returns (p: nat)
      requires p0 <= q < |s| && NulFree(s) && (buffer + s[p0..q]) + Escape(s[q..], restricted) == goal
      modifies this`buffer
      ensures p <= q + 1 && (buffer + s[p..q + 1]) + Escape(s[q + 1..], restricted) == goal
    {
      hide Escape, EscapeChar;
      p := p0;
      PrintStep(buffer, s, p, q, restricted, goal);
      if s[q] as int > 0 && s[q] as int < ENTITY_RANGE && Flagged(s[q], restricted) {
        if p < q {
          Write(s[p..q]);
          p := q;
        }
        PrintEntity(s[q], restricted);
        p := p + 1;
      } else {
        NotEscaped(s[q], restricted);
      }
    }

    /** The table search for the entity of a flagged character. */
    method PrintEntity(c: char, restricted: bool)
      requires Flagged(c, restricted)
      modifies this`buffer
      ensures buffer == old(buffer) + EscapeChar(c, restricted)
    {
      SomeEntity(c, restricted);
      for i := 0 to NUM_ENTITIES
        invariant buffer == old(buffer)
        invariant forall j: nat :: j < i ==> EntityValue(j) != c
      {
        if EntityValue(i) == c {
          EscapeOfFlagged(c, restricted, i);
          Putc('&');
          Write(Pattern(i));
          Putc(';');
          Associates(old(buffer), "&", Pattern(i));
          Associates(old(buffer), "&" + Pattern(i), ";");
          return;
        }
      }
    }

    method SealElementIfJustOpened()
      modifies this`buffer, this`elementJustOpened
      ensures buffer == old(buffer) + old(Pending()) && !elementJustOpened
    {
      if !elementJustOpened {
        assert buffer + [] == buffer;
        return;
      }
      elementJustOpened := false;
      Putc('>');
    }

    method PushHeader(writeBom: bool, writeDeclaration: bool)
      requires Valid()
      modifies this
      ensures Valid() && depth == old(depth) && stack == old(stack) && textDepth == old(textDepth)
      ensures processEntities == old(processEntities)
      ensures !writeDeclaration ==> elementJustOpened == old(elementJustOpened) && firstElement == old(firstElement)
      ensures !writeDeclaration ==> buffer == old(buffer) + (if writeBom then BOM else [])
      ensures writeDeclaration ==> !elementJustOpened && !firstElement
      ensures writeDeclaration ==>
                buffer == old(buffer) + (if writeBom then BOM else []) + old(Pending())
                          + (if textDepth < 0 && !old(firstElement) && !compactMode then "\n" + Indent(depth) else [])
                          + ("<?" + ("xml version=\"1.0\"" + "?>"))
    {
      assert buffer + [] == buffer;
      if writeBom {
        Write(BOM);
      }
      if writeDeclaration {
        PushDeclaration("xml version=\"1.0\"");
      }
    }

    /** The line break and indent that pretty layout puts before a node that is no element. */
    method NewLine()
      requires Valid()
      modifies this`buffer, this`firstElement
      ensures !firstElement
      ensures buffer == old(buffer) + (if textDepth < 0 && !old(firstElement) && !compactMode then "\n" + Indent(depth) else [])
    {
      assert buffer + [] == buffer;
      if textDepth < 0 && !firstElement && !compactMode {
        Putc('\n');
        PrintSpace(depth);
        Associates(old(buffer), "\n", Indent(depth));
      }
      firstElement := false;
    }

    method OpenElement(name: string, compact: bool)
      requires Valid()
      modifies this
      ensures Valid() && elementJustOpened && !firstElement && depth == old(depth) + 1 && stack == old(stack) + [name]
      ensures textDepth == old(textDepth) && processEntities == old(processEntities)
      ensures buffer == old(buffer) + old(Pending())
                        + ((if textDepth < 0 && !old(firstElement) && !compact then "\n" else [])
                           + (if compact then [] else Indent(old(depth)))) + ("<" + name)
    {
      SealElementIfJustOpened();
      stack := stack + [name];
      ghost var sealed := buffer;
      assert sealed + [] == sealed;
      if textDepth < 0 && !firstElement && !compact {
        Putc('\n');
      }
      ghost var line := if textDepth < 0 && !firstElement && !compact then "\n" else [];
      assert buffer == sealed + line;
      assert line + [] == line;
      if !compact {
        PrintSpace(depth);
        Associates(sealed, line, Indent(depth));
      }
      Write("<");
      Write(name);
      Associates(sealed + (line + (if compact then [] else Indent(depth))), "<", name);
      elementJustOpened, firstElement, depth := true, false, depth + 1;
    }

    method PushAttribute(name: string, value: string)
      requires elementJustOpened && NulFree(value)
      modifies this`buffer
      ensures buffer == old(buffer) + EmitAttrs([Attr(name, value)], [], Cfg())
    {
      Putc(' ');
      Write(name);
      Write("=\"");
      PrintString(value, false);
      Putc('"');
      OneAttr(old(buffer), name, Escaped(value, false, Cfg()), value, Cfg());
    }

    method CloseElement(compact: bool)
      requires Valid() && depth > 0
      modifies this
      ensures Valid() && !elementJustOpened && firstElement == old(firstElement)
      ensures depth == old(depth) - 1 && stack == old(stack[..depth - 1]) && processEntities == old(processEntities)
      ensures textDepth == if old(textDepth) == depth then -1 else old(textDepth)
      ensures buffer == old(buffer)
                        + (if old(elementJustOpened) then "/>"
                           else (if old(textDepth) < 0 && !compact then "\n" + Indent(depth) else []) + CloseTag(old(stack[depth - 1]), []))
                        + (if depth == 0 && !compact then "\n" else [])
    {
      depth := depth - 1;
      var name := stack[|stack| - 1];
      stack := stack[..|stack| - 1];
      ghost var b := buffer;
      assert b + [] == b;
      if elementJustOpened {
        Write("/>");
      } else {
        ghost var lead: string := [];
        if textDepth < 0 && !compact {
          Putc('\n');
          PrintSpace(depth);
          lead := "\n" + Indent(depth);
          Associates(b, "\n", Indent(depth));
        }
        assert buffer == b + lead;
        Write("</");
        Write(name);
        Write(">");
        CloseWritten(b, lead, name);
      }
      assert buffer + [] == buffer;
      if textDepth == depth {
        textDepth := -1;
      }
      if depth == 0 && !compact {
        Putc('\n');
      }
      elementJustOpened := false;
    }

    method PushText(text: string, cdata: bool)
      requires Valid() && NulFree(text)
      modifies this
      ensures Valid() && !elementJustOpened && textDepth == old(depth) - 1
      ensures depth == old(depth) && stack == old(stack) && firstElement == old(firstElement) && processEntities == old(processEntities)
      ensures buffer == old(buffer) + old(Pending()) + EmitNode(Text(text, cdata), Now(), [], Cfg())
    {
      textDepth := depth - 1;
      SealElementIfJustOpened();
      ghost var b := buffer;
      if cdata {
        Write("<![CDATA[");
        Write(text);
        Write("]]>");
        Written(b, "<![CDATA[", text, "]]>");
      } else {
        PrintString(text, true);
        assert Escaped(text, true, Cfg()) + [] == Escaped(text, true, Cfg());
      }
    }

    method PushComment(comment: string)
      requires Valid()
      modifies this
      ensures Valid() && !elementJustOpened && !firstElement
      ensures depth == old(depth) && stack == old(stack) && textDepth == old(textDepth) && processEntities == old(processEntities)
      ensures buffer == old(buffer) + old(Pending())
                        + (if textDepth < 0 && !old(firstElement) && !compactMode then "\n" + Indent(depth) else [])
                        + ("<!--" + (comment + "-->"))
    {
      SealElementIfJustOpened();
      NewLine();
      ghost var b := buffer;
      Write("<!--");
      Write(comment);
      Write("-->");
      Written(b, "<!--", comment, "-->");
    }

    method PushDeclaration(value: string)
      requires Valid()
      modifies this
      ensures Valid() && !elementJustOpened && !firstElement
      ensures depth == old(depth) && stack == old(stack) && textDepth == old(textDepth) && processEntities == old(processEntities)
      ensures buffer == old(buffer) + old(Pending())
                        + (if textDepth < 0 && !old(firstElement) && !compactMode then "\n" + Indent(depth) else [])
                        + ("<?" + (value + "?>"))
    {
      SealElementIfJustOpened();
      NewLine();
      ghost var b := buffer;
      Write("<?");
      Write(value);
      Write("?>");
      Written(b, "<?", value, "?>");
    }

    method PushUnknown(value: string)
      requires Valid()
      modifies this
      ensures Valid() && !elementJustOpened && !firstElement
      ensures depth == old(depth) && stack == old(stack) && textDepth == old(textDepth) && processEntities == old(processEntities)
      ensures buffer == old(buffer) + old(Pending())
                        + (if textDepth < 0 && !old(firstElement) && !compactMode then "\n" + Indent(depth) else [])
                        + ("<!" + (value + ">"))
    {
      SealElementIfJustOpened();
      NewLine();
      ghost var b := buffer;
      Write("<!");
      Write(value);
      Putc('>');
      Written(b, "<!", value, ">");
    }

    /** VisitEnter of an element: the open tag with all its attributes. */
    method EnterElement(n: Node)
      requires Valid() && n.Element? && ValuesNulFree(n.attrs)
      modifies this
      ensures Valid() && elementJustOpened && stack == old(stack) + [n.name] && processEntities == old(processEntities)
      ensures Now() == Inside(old(Now()))
      ensures buffer == old(buffer) + old(Pending()) + Lead(n, old(Now())) + ("<" + (n.name + EmitAttrs(n.attrs, [], Cfg())))
    {
      hide EmitAttrs;
      ghost var b, lead := buffer + Pending(), Lead(n, Now());
      LeadOfElement(n, Now());
      OpenElement(n.name, compactMode);
      ghost var head := buffer;
      for i := 0 to |n.attrs|
        invariant Valid() && elementJustOpened && stack == old(stack) + [n.name] && processEntities == old(processEntities)
        invariant Now() == Inside(old(Now()))
        invariant buffer + EmitAttrs(n.attrs[i..], [], Cfg()) == head + EmitAttrs(n.attrs, [], Cfg())
      {
        AttrsFrom(n.attrs, i, Cfg());
        Associates(buffer, EmitAttrs([Attr(n.attrs[i].name, n.attrs[i].value)], [], Cfg()), EmitAttrs(n.attrs[i + 1..], [], Cfg()));
        PushAttribute(n.attrs[i].name, n.attrs[i].value);
      }
      NoAttrs(n.attrs[|n.attrs|..], buffer, Cfg());
      ghost var a := EmitAttrs(n.attrs, [], Cfg());
      assert buffer == head + a;
      Associates("<", n.name, a);
      Associates(b + lead, "<" + n.name, a);
    }

    /** XMLNode::Accept with this printer as the visitor: what one node adds to the buffer, and the layout it leaves. */
    method Accept(n: Node)
      requires Valid() && TextsNulFree(n)
      modifies this
      ensures Valid() && !elementJustOpened && stack == old(stack) && processEntities == old(processEntities)
      ensures Now() == LayoutAfter(n, old(Now()))
      ensures buffer == old(buffer) + old(Pending()) + (Lead(n, old(Now())) + EmitNode(n, old(Now()), [], Cfg()))
      decreases n, 2
    {
      hide EmitNode, TextsNulFree, Indent, EmitAttrs, CloseTag, EmitNodes;
      ghost var b, p := buffer + Pending(), Now();
      NodeParts(n, p, Cfg());
      match n {
        case Element(name, attrs, children) => AcceptElement(n);
        case Text(v, cdata) =>
          PushText(v, cdata);
          TextAnyLayout(n, p, Now(), Cfg());
          assert [] + EmitNode(n, p, [], Cfg()) == EmitNode(n, p, [], Cfg());
        case Comment(v) => PushComment(v); Associates(b, Lead(n, p), "<!--" + (v + "-->"));
        case Declaration(v) => PushDeclaration(v); Associates(b, Lead(n, p), "<?" + (v + "?>"));
        case Unknown(v) => PushUnknown(v); Associates(b, Lead(n, p), "<!" + (v + ">"));
      }
    }

    method AcceptElement(n: Node)
      requires Valid() && n.Element? && TextsNulFree(n)
      modifies this
      ensures Valid() && !elementJustOpened && stack == old(stack) && processEntities == old(processEntities)
      ensures Now() == LayoutAfter(n, old(Now()))
      ensures buffer == old(buffer) + old(Pending()) + (Lead(n, old(Now())) + EmitNode(n, old(Now()), [], Cfg()))
      decreases n, 1
    {
      hide EmitNode, EmitNodes, EmitAttrs, CloseTag, Indent, Lead, LayoutAfterAll;
      ghost var b, p, cfg := buffer + Pending(), Now(), Cfg();
      ElementParts(n);
      EnterElement(n);
      ghost var lead, tag := Lead(n, p), "<" + (n.name + EmitAttrs(n.attrs, [], cfg));
      assert buffer == b + lead + tag;
      AcceptChildren(n);
      NothingInside(n, p);
      CloseElement(compactMode);
      ElementWritten(n, p, cfg, b, lead, buffer);
    }

    method AcceptChildren(n: Node)
      requires Valid() && n.Element? && TextsNulFree(n) && elementJustOpened && depth > 0
      modifies this
      ensures Valid() && stack == old(stack) && processEntities == old(processEntities)
      ensures Now() == LayoutAfterAll(n.children, old(Now())) && depth == old(depth)
      ensures elementJustOpened <==> n.children == []
      ensures n.children == [] ==> buffer == old(buffer)
      ensures n.children != [] ==> buffer == old(buffer) + ">" + EmitNodes(n.children, old(Now()), [], Cfg())
      decreases n, 0
    {
      hide EmitNode, EmitNodes, TextsNulFree, Lead, LayoutAfter, LayoutAfterAll;
      ghost var p, cfg, head, b0 := Now(), Cfg(), buffer, buffer + ">";
      ghost var whole := EmitNodes(n.children, p, [], cfg);
      for i := 0 to |n.children|
        invariant Valid() && stack == old(stack) && processEntities == old(processEntities)
        invariant depth == p.depth && LayoutAfterAll(n.children[i..], Now()) == LayoutAfterAll(n.children, p)
        invariant elementJustOpened <==> i == 0
        invariant i == 0 ==> buffer == head
        invariant (buffer + Pending()) + EmitNodes(n.children[i..], Now(), [], cfg) == b0 + whole
      {
        ChildParts(n, i);
        FirstOf(n.children, i, Now(), cfg, buffer + Pending());
        AfterFirst(n.children, i, Now());
        Accept(n.children[i]);
        assert buffer + Pending() == buffer;
      }
      NoNodes(n.children[|n.children|..], Now(), cfg);
      if n.children != [] {
        assert (buffer + Pending()) + [] == buffer;
      }
    }

    /** Printing a whole document: VisitEnter writes the byte order mark, then every top-level node is visited. */
    method AcceptDocument(bom: bool, children: seq<Node>, cfg: Config)
      requires Valid() && buffer == [] && !elementJustOpened && Now() == Start(!compactMode)
      requires forall i :: 0 <= i < |children| ==> TextsNulFree(children[i])
      modifies this
      ensures buffer == PrintDocument(bom, children, !compactMode, cfg)
    {
      hide EmitNode, EmitNodes, TextsNulFree, Lead, LayoutAfter;
      processEntities := cfg.processEntities;
      ghost var c := Config(cfg.processEntities, false);
      if bom {
        PushHeader(true, false);
      }
      ghost var b0, p := buffer, Now();
      ghost var whole := EmitNodes(children, p, [], c);
      for i := 0 to |children|
        invariant Valid() && processEntities == cfg.processEntities && !elementJustOpened
        invariant buffer + EmitNodes(children[i..], Now(), [], c) == b0 + whole
      {
        FirstOf(children, i, Now(), c, buffer);
        assert buffer + Pending() == buffer;
        Accept(children[i]);
      }
      NoNodes(children[|children|..], Now(), c);
      assert buffer + [] == buffer;
      CollapseIrrelevant(children, p, [], cfg);
    }
  }

  lemma LeadOfElement(n: Node, p: Layout)
    requires n.Element?
    ensures Lead(n, p) == (if p.textDepth < 0 && !p.first && p.pretty then "\n" else []) + (if p.pretty then Indent(p.depth) else [])
  {
    var none: string := [];
    assert none + [] == none;
  }

  lemma TextAnyLayout(n: Node, p: Layout, q: Layout, cfg: Config)
    requires n.Text?
    ensures EmitNode(n, p, [], cfg) == EmitNode(n, q, [], cfg)
  {
    hide Escaped;
  }

  lemma NodeParts(n: Node, p: Layout, cfg: Config)
    ensures n.Text? ==> Lead(n, p) == []
    ensures !n.Text? && !n.Element? ==> Lead(n, p) == if p.textDepth < 0 && !p.first && p.pretty then "\n" + Indent(p.depth) else []
    ensures n.Text? && TextsNulFree(n) ==> NulFree(n.value)
    ensures n.Comment? ==> EmitNode(n, p, [], cfg) == "<!--" + (n.value + "-->")
    ensures n.Declaration? ==> EmitNode(n, p, [], cfg) == "<?" + (n.value + "?>")
    ensures n.Unknown? ==> EmitNode(n, p, [], cfg) == "<!" + (n.value + ">")
  {
    hide Escaped, ElementEnd;
    assert "-->" + [] == "-->" && "?>" + [] == "?>" && ">" + [] == ">";
  }

  /** The layout behind an element without children. */
  lemma NothingInside(n: Node, p: Layout)
    requires n.Element?
    ensures n.children == [] ==> LayoutAfterAll(n.children, Inside(p)) == Inside(p)
    ensures LayoutAfterAll(n.children, Inside(p)).pretty == p.pretty && LayoutAfterAll(n.children, Inside(p)).first == false
  {
    AfterAllKeeps(n.children, Inside(p));
  }

  lemma {:induction false} AfterKeeps(n: Node, p: Layout)
    ensures LayoutAfter(n, p).pretty == p.pretty && LayoutAfter(n, p).depth == p.depth && (!p.first ==> !LayoutAfter(n, p).first)
    decreases n, 1
  {
  }

  lemma {:induction false} AfterAllKeeps(ns: seq<Node>, p: Layout)
    ensures LayoutAfterAll(ns, p).pretty == p.pretty && LayoutAfterAll(ns, p).depth == p.depth && (!p.first ==> !LayoutAfterAll(ns, p).first)
    decreases ns, 0
  {
    hide LayoutAfter;
    if ns != [] {
      AfterKeeps(ns[0], p);
      AfterAllKeeps(ns[1..], LayoutAfter(ns[0], p));
    }
  }

  lemma AfterFirst(ns: seq<Node>, i: nat, p: Layout)
    requires i < |ns|
    ensures LayoutAfterAll(ns[i..], p) == LayoutAfterAll(ns[i + 1..], LayoutAfter(ns[i], p)) && LayoutAfter(ns[i], p).depth == p.depth
  {
    hide LayoutAfter;
    AfterKeeps(ns[i], p);
    assert ns[i..][1..] == ns[i + 1..];
  }

  lemma ElementParts(n: Node)
    requires n.Element? && TextsNulFree(n)
    ensures ValuesNulFree(n.attrs)
  {
  }

  lemma ChildParts(n: Node, i: nat)
    requires n.Element? && i < |n.children|
    ensures TextsNulFree(n) ==> TextsNulFree(n.children[i])
  {
  }

  lemma NoNodes(ns: seq<Node>, p: Layout, cfg: Config)
    requires ns == []
    ensures EmitNodes(ns, p, [], cfg) == [] && LayoutAfterAll(ns, p) == p
  {
  }

  /** The next sibling, split off what is still to be printed behind `b`. */
  lemma FirstOf(ns: seq<Node>, i: nat, p: Layout, cfg: Config, b: string)
    requires i < |ns|
    ensures b + EmitNodes(ns[i..], p, [], cfg)
              == (b + (Lead(ns[i], p) + EmitNode(ns[i], p, [], cfg))) + EmitNodes(ns[i + 1..], LayoutAfter(ns[i], p), [], cfg)
  {
    hide Lead, EmitNode, LayoutAfter;
    assert ns[i..][1..] == ns[i + 1..];
    var l, e, rest := Lead(ns[i], p), EmitNode(ns[i], p, [], cfg), EmitNodes(ns[i + 1..], LayoutAfter(ns[i], p), [], cfg);
    NodeTail(ns[i], p, rest, cfg);
    Associates(l, e, rest);
    Associates(b, l + e, rest);
  }

  /** The pieces the printer has written for an element are EmitNode of it. */
  lemma ElementWritten(n: Node, p: Layout, cfg: Config, b: string, lead: string, buffer: string)
    requires n.Element?
    requires var tag := "<" + (n.name + EmitAttrs(n.attrs, [], cfg));
             var body := if n.children == [] then b + lead + tag
                         else b + lead + tag + ">" + EmitNodes(n.children, Inside(p), [], cfg);
             buffer == body + (if n.children == [] then "/>"
                               else BeforeClose(LayoutAfterAll(n.children, Inside(p)), p.depth) + CloseTag(n.name, [])) + AfterElement(p)
    ensures buffer == b + (lead + EmitNode(n, p, [], cfg))
  {
    hide EmitNodes, EmitAttrs, CloseTag, BeforeClose, AfterElement, LayoutAfterAll;
    var tag, after := "<" + (n.name + EmitAttrs(n.attrs, [], cfg)), AfterElement(p);
    var end := ElementEnd(n, p, [], cfg);
    EmitIsTagAndEnd(n, p, cfg);
    assert after + [] == after;
    if n.children == [] {
      Associates(b + lead + tag, "/>", after);
    } else {
      var inner, close := EmitNodes(n.children, Inside(p), [], cfg), BeforeClose(LayoutAfterAll(n.children, Inside(p)), p.depth);
      assert [] + after == after;
      CloseTail(n.name, [], after);
      NodesTail(n.children, Inside(p), close + CloseTag(n.name, after), cfg);
      Associates(close, CloseTag(n.name, []), after);
      Associates(b + lead + tag + ">" + inner, close + CloseTag(n.name, []), after);
      Associates(b + lead + tag, ">", inner);
      Associates(b + lead + tag, ">" + inner, close + CloseTag(n.name, after));
      Associates(">", inner, close + CloseTag(n.name, after));
    }
    assert buffer == b + lead + tag + end;
    Associates(b + lead, tag, end);
    Associates(b, lead, tag + end);
  }

  lemma EmitIsTagAndEnd(n: Node, p: Layout, cfg: Config)
    requires n.Element?
    ensures EmitNode(n, p, [], cfg) == "<" + (n.name + EmitAttrs(n.attrs, [], cfg)) + ElementEnd(n, p, [], cfg)
  {
    hide EmitNodes, EmitAttrs, ElementEnd;
    var a, end := EmitAttrs(n.attrs, [], cfg), ElementEnd(n, p, [], cfg);
    AttrsTail(n.attrs, end, cfg);
    Associates(n.name, a, end);
    Associates("<", n.name + a, end);
  }

  lemma {:induction false} AttrsCollapseIrrelevant(attrs: seq<Attr>, tail: string, cfg: Config)
    ensures EmitAttrs(attrs, tail, cfg) == EmitAttrs(attrs, tail, cfg.(collapse := false))
  {
    if attrs != [] {
      AttrsCollapseIrrelevant(attrs[1..], tail, cfg);
    }
  }

  lemma {:induction false} NodeCollapseIrrelevant(n: Node, p: Layout, tail: string, cfg: Config)
    ensures EmitNode(n, p, tail, cfg) == EmitNode(n, p, tail, cfg.(collapse := false))
    decreases n, 1
  {
    hide EmitNodes, EmitAttrs, Escape;
    if n.Element? {
      hide CloseTag, BeforeClose, AfterElement, LayoutAfterAll;
      var after := AfterElement(p) + tail;
      CollapseIrrelevant(n.children, Inside(p), BeforeClose(LayoutAfterAll(n.children, Inside(p)), p.depth) + CloseTag(n.name, after), cfg);
      AttrsCollapseIrrelevant(n.attrs, ElementEnd(n, p, tail, cfg), cfg);
    }
  }

  /** Printing does not depend on the whitespace mode. */
  lemma {:induction false} CollapseIrrelevant(ns: seq<Node>, p: Layout, tail: string, cfg: Config)
    ensures EmitNodes(ns, p, tail, cfg) == EmitNodes(ns, p, tail, cfg.(collapse := false))
    decreases ns, 0
  {
    hide EmitNode, Lead, LayoutAfter;
    if ns != [] {
      CollapseIrrelevant(ns[1..], LayoutAfter(ns[0], p), tail, cfg);
      NodeCollapseIrrelevant(ns[0], p, EmitNodes(ns[1..], LayoutAfter(ns[0], p), tail, cfg), cfg);
    }
  }

  predicate ValuesNulFree(attrs: seq<Attr>) {
    forall i :: 0 <= i < |attrs| ==> NulFree(attrs[i].value)
  }

  /** The strings of a node are C strings. */
  predicate TextsNulFree(n: Node) {
    match n
    case Element(_, attrs, children) =>
      ValuesNulFree(attrs) && forall i :: 0 <= i < |children| ==> TextsNulFree(children[i])
    case Text(v, _) => NulFree(v)
    case Comment(v) => NulFree(v)
    case Declaration(v) => NulFree(v)
    case Unknown(v) => NulFree(v)
  }

  lemma AttrsFrom(attrs: seq<Attr>, i: nat, cfg: Config)
    requires i < |attrs|
    ensures EmitAttrs(attrs[i..], [], cfg) == EmitAttrs([Attr(attrs[i].name, attrs[i].value)], [], cfg) + EmitAttrs(attrs[i + 1..], [], cfg)
  {
    hide Escaped;
    var rest := EmitAttrs(attrs[i + 1..], [], cfg);
    assert attrs[i..][1..] == attrs[i + 1..];
    var one := [Attr(attrs[i].name, attrs[i].value)];
    assert one[1..] == [];
    assert EmitAttrs(one, rest, cfg) == EmitAttrs(attrs[i..], [], cfg);
    AttrsTail(one, rest, cfg);
  }

  lemma NoAttrs(attrs: seq<Attr>, b: string, cfg: Config)
    requires attrs == []
    ensures b + EmitAttrs(attrs, [], cfg) == b
  {
  }

  lemma OneAttr(b: string, name: string, v: string, value: string, cfg: Config)
    requires v == Escaped(value, false, cfg)
    ensures b + [' '] + name + "=\"" + v + ['"'] == b + EmitAttrs([Attr(name, value)], [], cfg)
  {
    hide Escaped;
    assert EmitAttrs([Attr(name, value)], [], cfg) == " " + (name + ("=\"" + (v + ("\"" + [])))) by {
      assert [Attr(name, value)][1..] == [];
    }
    hide EmitAttrs;
    assert "\"" + [] == ['"'];
    Associates(b, " ", name);
    Associates(b, " " + name, "=\"");
    Associates(b, " " + name + "=\"", v);
    Associates(b, " " + name + "=\"" + v, "\"");
    Associates(" " + name + "=\"", v, "\"");
    Associates(" " + name, "=\"", v + "\"");
    Associates(" ", name, "=\"" + (v + "\""));
  }

  lemma CloseWritten(b: string, lead: string, name: string)
    ensures b + lead + "</" + name + ">" == b + (lead + CloseTag(name, []))
  {
    assert ">" + [] == ">";
    Associates(b + lead, "</", name);
    Associates(b + lead, "</" + name, ">");
    Associates("</", name, ">");
    Associates(b, lead, "</" + (name + ">"));
  }

  lemma Written(b: string, h: string, v: string, t: string)
    ensures b + h + v + t == b + (h + (v + t)) == b + (h + (v + (t + [])))
  {
    assert t + [] == t;
    Associates(b, h, v);
    Associates(b, h + v, t);
    Associates(h, v, t);
  }

  lemma NotEscaped(c: char, restricted: bool)
    requires !(c as int > 0 && c as int < ENTITY_RANGE && Flagged(c, restricted))
    ensures EscapeChar(c, restricted) == [c]
  {
  }

  lemma NothingToEscape(s: string, restricted: bool, b: string)
    requires s == []
    ensures b + Escape(s, restricted) == b
  {
  }

  /** One character more: either it joins the pending run, or the run and its printed form are written out. */
  lemma PrintStep(b: string, s: string, p: nat, q: nat, restricted: bool, goal: string)
    requires p <= q < |s| && NulFree(s) && (b + s[p..q]) + Escape(s[q..], restricted) == goal
    ensures s[q] != NUL
    ensures EscapeChar(s[q], restricted) == [s[q]] ==> (b + s[p..q + 1]) + Escape(s[q + 1..], restricted) == goal
    ensures (b + s[p..q] + EscapeChar(s[q], restricted) + s[q + 1..q + 1]) + Escape(s[q + 1..], restricted) == goal
    ensures p == q ==> b + s[p..q] == b
  {
    hide Escape, EscapeChar;
    EscapeStep(s, q, restricted);
    var run, e, rest := s[p..q], EscapeChar(s[q], restricted), Escape(s[q + 1..], restricted);
    Associates(b + run, e, rest);
    Associates(b, run, [s[q]]);
    assert s[p..q + 1] == run + [s[q]];
    assert b + run + e + s[q + 1..q + 1] == b + run + e;
  }

  lemma EscapeStep(s: string, q: nat, restricted: bool)
    requires q < |s|
    ensures Escape(s[q..], restricted) == EscapeChar(s[q], restricted) + Escape(s[q + 1..], restricted)
  {
    assert s[q..][1..] == s[q + 1..];
  }
}
