/** What a parse of a whole text yields and what printing writes, as functions on texts.
    XmlParser.dfy and XmlPrinter.dfy prove the buffer-walking code against them; RoundTrip.dfy relates the two.
    A text is NUL-free; a suffix of it stands for a read pointer. */
module XmlSyntax {
  import opened XmlUtil
  import opened XmlText

  datatype Attr = Attr(name: string, value: string)

  datatype Node =
    | Element(name: string, attrs: seq<Attr>, children: seq<Node>)
    | Text(value: string, cdata: bool)
    | Comment(value: string)
    | Declaration(value: string)
    | Unknown(value: string)

  /** The two settings of an XMLDocument. */
  datatype Config = Config(processEntities: bool, collapse: bool)

  const MAX_DEPTH: nat := 100

  function TextFlags(cfg: Config): Flags {
    Flags(cfg.processEntities, true, cfg.collapse)
  }

  function AttrFlags(cfg: Config): Flags {
    Flags(cfg.processEntities, true, false)
  }

  /** Flags of comments, declarations, unknowns and CDATA sections. */
  const BODY := Flags(false, true, false)

  datatype XmlError =
    | ErrElement | ErrAttribute | ErrText | ErrCData | ErrComment | ErrDeclaration | ErrUnknown
    | ErrEmptyDocument | ErrMismatched | ErrParsing | ErrDepth

  // ---------- parsing ----------

  datatype AttrResult = AttrFail | AttrOk(attr: Attr, rest: string)

  /** Behind an attribute's name: the text from the opening quote on, when '=' and a quote follow. */
  function OpenQuote(s: string): (r: Option<string>)
    ensures r.Some? ==> 0 < |r.value| < |s| && (r.value[0] == '"' || r.value[0] == '\'')
  {
    var eq := SkipWS(s);
    if eq == [] || eq[0] != '=' then None
    else
      var quote := SkipWS(eq[1..]);
      if quote == [] || (quote[0] != '"' && quote[0] != '\'') then None else Some(quote)
  }

  /** XMLAttribute::ParseDeep at a name start character. */
  function ParseAttribute(s: string, cfg: Config): (r: AttrResult)
    ensures r.AttrOk? ==> |r.rest| < |s|
  {
    var k := NameLength(s);
    if k == 0 || k == |s| then AttrFail
    else
      match OpenQuote(s[k..])
      case None => AttrFail
      case Some(quote) =>
        match Find(quote[1..], [quote[0]])
        case None => AttrFail
        case Some(n) => AttrOk(Attr(s[..k], Value(quote[1..][..n], AttrFlags(cfg))), quote[1..][n + 1..])
  }

  function Names(attrs: seq<Attr>): set<string> {
    set a | a in attrs :: a.name
  }

  datatype AttrsResult = AttrsFail(error: XmlError) | AttrsOk(attrs: seq<Attr>, selfClosed: bool, rest: string)

  /** XMLElement::ParseAttributes, with the attributes found so far. */
  function ParseAttributes(s: string, acc: seq<Attr>, cfg: Config): (r: AttrsResult)
    ensures r.AttrsOk? ==> |r.rest| < |s|
    decreases |s|
  {
    var t := SkipWS(s);
    if t == [] then AttrsFail(ErrElement)
    else if IsNameStartChar(t[0]) then
      match ParseAttribute(t, cfg)
      case AttrFail => AttrsFail(ErrAttribute)
      case AttrOk(a, rest) =>
        if a.name in Names(acc) then AttrsFail(ErrAttribute)
        else ParseAttributes(rest, acc + [a], cfg)
    else if t[0] == '>' then AttrsOk(acc, false, t[1..])
    else if t[0] == '/' && |t| > 1 && t[1] == '>' then AttrsOk(acc, true, t[2..])
    else AttrsFail(ErrElement)
  }

  datatype Closing = Open | Closed | ClosingTag

  datatype HeadResult = HeadFail(error: XmlError) | Head(closing: Closing, name: string, attrs: seq<Attr>, rest: string)

  /** A tag after its '<': the part of XMLElement::ParseDeep that does not recurse. "</a/>" counts as self-closed. */
  function ParseHead(s: string, cfg: Config): (r: HeadResult)
    ensures r.Head? ==> |r.rest| < |s|
  {
    var t := SkipWS(s);
    var slash := t != [] && t[0] == '/';
    var u := if slash then t[1..] else t;
    var k := NameLength(u);
    if k == 0 then HeadFail(ErrParsing)
    else
      match ParseAttributes(u[k..], [], cfg)
      case AttrsFail(e) => HeadFail(e)
      case AttrsOk(attrs, selfClosed, rest) =>
        Head(if selfClosed then Closed else if slash then ClosingTag else Open, u[..k], attrs, rest)
  }

  datatype Step =
    | NoNode                                 // nothing but blanks is left
    | Fail(error: XmlError)
    | EndTag(name: string, rest: string)     // a closing tag, to be matched by the caller
    | Got(node: Node, rest: string)

  /** How a list of siblings ended. */
  datatype Content =
    | Ended(children: seq<Node>)
    | Failed(error: XmlError)
    | AtEndTag(children: seq<Node>, name: string, rest: string)

  /** Declarations are accepted only at the top and only while nothing else has been read. */
  predicate DeclarationAllowed(top: bool, acc: seq<Node>) {
    top && (acc == [] || (acc[0].Declaration? && acc[|acc| - 1].Declaration?))
  }

  /** A node that is parsed as text up to a terminator. */
  function ParseBody(s: string, term: string, make: string -> Node, error: XmlError): (r: Step)
    requires term != []
    ensures r.Got? ==> |r.rest| < |s|
  {
    match Find(s, term)
    case None => Fail(error)
    case Some(k) => Got(make(Value(s[..k], BODY)), s[k + |term|..])
  }

  /** Element text runs up to the next '<', which stays unread and must not be the last character. */
  function ParseText(s: string, cfg: Config): (r: Step)
    requires s != [] && s[0] != '<'  // blanks, then something that starts no markup
    ensures r.Got? ==> |r.rest| < |s|
  {
    match Find(s, "<")
    case None => Fail(ErrText)
    case Some(k) =>
      if k + 1 == |s| then Fail(ErrParsing)
      else Got(Text(Value(s[..k], TextFlags(cfg)), false), s[k..])
  }

  function ParseDeclaration(s: string, allowed: bool): (r: Step)
    ensures r.Got? ==> |r.rest| < |s|
  {
    var step := ParseBody(s, "?>", v => Declaration(v), ErrDeclaration);
    if step.Got? && !allowed then Fail(ErrDeclaration) else step
  }

  datatype Kind = DeclarationKind | CommentKind | CDataKind | UnknownKind | ElementKind | TextKind

  /** The header table of XMLDocument::Identify, tried in order on the first character that is no blank. */
  function Identify(t: string): (k: Kind)
    requires t != []
    ensures HeaderLength(k) <= |t|
    ensures k.TextKind? ==> t[0] != '<'
  {
    if StartsWith(t, "<?") then DeclarationKind
    else if StartsWith(t, "<!--") then CommentKind
    else if StartsWith(t, "<![CDATA[") then CDataKind
    else if StartsWith(t, "<!") then UnknownKind
    else if StartsWith(t, "<") then ElementKind
    else TextKind
  }

  function HeaderLength(k: Kind): nat {
    match k
    case DeclarationKind => 2
    case CommentKind => 4
    case CDataKind => 9
    case UnknownKind => 2
    case ElementKind => 1
    case TextKind => 0
  }

  /** Identify plus the node's own ParseDeep: one node of a sibling list. Text starts at the blanks before it. */
  function ParseOne(s: string, depth: nat, top: bool, acc: seq<Node>, cfg: Config): (r: Step)
    requires 1 <= depth < MAX_DEPTH
    ensures r.Got? || r.EndTag? ==> |r.rest| < |s|
    decreases |s|, 1
  {
    hide SkipWS, ParseHead, Find, StartsWith, Identify;
    var t := SkipWS(s);
    if t == [] then NoNode
    else
      var body := t[HeaderLength(Identify(t))..];
      match Identify(t)
      case DeclarationKind => ParseDeclaration(body, DeclarationAllowed(top, acc))
      case CommentKind => ParseBody(body, "-->", v => Comment(v), ErrComment)
      case CDataKind => ParseBody(body, "]]>", v => Text(v, true), ErrCData)
      case UnknownKind => ParseBody(body, ">", v => Unknown(v), ErrUnknown)
      case ElementKind => ParseElement(body, depth, cfg)
      case TextKind => TextStart(s); ParseText(s, cfg)
  }

  lemma TextStart(s: string)
    requires SkipWS(s) != [] && SkipWS(s)[0] != '<'
    ensures s[0] != '<'
  {
  }

  function ParseElement(s: string, depth: nat, cfg: Config): (r: Step)
    requires 1 <= depth < MAX_DEPTH
    ensures r.Got? || r.EndTag? ==> |r.rest| < |s|
    decreases |s|, 0
  {
    hide *;
    match ParseHead(s, cfg)
    case HeadFail(e) => Fail(e)
    case Head(closing, name, attrs, rest) =>
      match closing
      case ClosingTag => EndTag(name, rest)
      case Closed => Got(Element(name, attrs, []), rest)
      case Open => if rest == [] then Fail(ErrMismatched) else FinishElement(name, attrs, Level(rest, depth + 1, false, cfg))
  }

  /** The end tag that came back from the children must carry the element's own name. */
  function FinishElement(name: string, attrs: seq<Attr>, content: Content): (r: Step)
    ensures r.Got? ==> content.AtEndTag? && r.rest == content.rest
    ensures r.Got? || r.Fail?
  {
    match content
    case Failed(e) => Fail(e)
    case Ended(_) => Fail(ErrParsing)
    case AtEndTag(children, endName, rest) =>
      if endName == name then Got(Element(name, attrs, children), rest) else Fail(ErrMismatched)
  }

  /** XMLNode::ParseDeep at `depth`, of an element or of the document itself (`top`). */
  function Level(s: string, depth: nat, top: bool, cfg: Config): (r: Content)
    requires 1 <= depth <= MAX_DEPTH
    ensures r.AtEndTag? ==> |r.rest| < |s|
    decreases |s|, 3
  {
    if depth == MAX_DEPTH then Failed(ErrDepth) else ParseContent(s, depth, top, [], cfg)
  }

  /** The loop of XMLNode::ParseDeep, with the children linked so far. */
  function ParseContent(s: string, depth: nat, top: bool, acc: seq<Node>, cfg: Config): (r: Content)
    requires 1 <= depth < MAX_DEPTH
    ensures r.AtEndTag? ==> |r.rest| < |s|
    decreases |s|, 2
  {
    if s == [] then Ended(acc)
    else
      match ParseOne(s, depth, top, acc, cfg)
      case NoNode => Ended(acc)
      case Fail(e) => Failed(e)
      case EndTag(name, rest) => AtEndTag(acc, name, rest)
      case Got(node, rest) => ParseContent(rest, depth, top, acc + [node], cfg)
  }

  // ---------- one level of the definitions at a time ----------

  lemma AttributeCases(s: string, cfg: Config)
    ensures var k, r := NameLength(s), ParseAttribute(s, cfg);
            && (k == 0 || k == |s| || OpenQuote(s[k..]).None? ==> r.AttrFail?)
            && (0 < k < |s| && OpenQuote(s[k..]).Some? ==>
                  var u := OpenQuote(s[k..]).value;
                  match Find(u[1..], [u[0]])
                  case None => r.AttrFail?
                  case Some(n) => r == AttrOk(Attr(s[..k], Value(u[1..][..n], AttrFlags(cfg))), u[1..][n + 1..]))
  {
    hide Value, Find, NameLength, OpenQuote;
  }

  /** The cases of ParseAttributes behind the blanks. */
  lemma AttributesCases(s: string, acc: seq<Attr>, cfg: Config)
    ensures var u, r := SkipWS(s), ParseAttributes(s, acc, cfg);
            && (u == [] ==> r == AttrsFail(ErrElement))
            && (u != [] && IsNameStartChar(u[0]) ==>
                  var a := ParseAttribute(u, cfg);
                  r == if a.AttrFail? || a.attr.name in Names(acc) then AttrsFail(ErrAttribute)
                       else ParseAttributes(a.rest, acc + [a.attr], cfg))
            && (u != [] && !IsNameStartChar(u[0]) ==>
                  r == if u[0] == '>' then AttrsOk(acc, false, u[1..])
                       else if u[0] == '/' && |u| > 1 && u[1] == '>' then AttrsOk(acc, true, u[2..])
                       else AttrsFail(ErrElement))
  {
    hide ParseAttribute, Names, SkipWS, IsNameStartChar;
  }

  lemma HeadCases(s: string, cfg: Config)
    ensures var t, r := SkipWS(s), ParseHead(s, cfg);
            var slash := t != [] && t[0] == '/';
            var u := if slash then t[1..] else t;
            if NameLength(u) == 0 then r == HeadFail(ErrParsing)
            else match ParseAttributes(u[NameLength(u)..], [], cfg)
                 case AttrsFail(e) => r == HeadFail(e)
                 case AttrsOk(attrs, selfClosed, rest) =>
                   r == Head(if selfClosed then Closed else if slash then ClosingTag else Open, u[..NameLength(u)], attrs, rest)
  {
    hide SkipWS, NameLength, ParseAttributes;
  }

  lemma HeadHasName(s: string, cfg: Config)
    ensures ParseHead(s, cfg).Head? ==> ParseHead(s, cfg).name != []
  {
    hide SkipWS, ParseAttributes;
  }

  lemma TextCases(s: string, cfg: Config)
    requires s != [] && s[0] != '<'
    ensures var found, r := Find(s, "<"), ParseText(s, cfg);
            && (found.None? ==> r == Fail(ErrText))
            && (found.Some? ==>
                  var k := found.value;
                  && 0 < k < |s| && s[k] == '<' && s[k..] != [] && s[k..][0] == '<'
                  && (s[k + 1..] == [] ==> r == Fail(ErrParsing))
                  && (s[k + 1..] != [] ==> r == Got(Text(Value(s[..k], TextFlags(cfg)), false), s[k..])))
  {
    hide Value;
  }

  /** ParseOne for everything but elements. */
  function LeafStep(kind: Kind, body: string, allowed: bool, cfg: Config): Step
    requires !kind.ElementKind? && (kind.TextKind? ==> body != [] && body[0] != '<')
  {
    match kind
    case DeclarationKind => ParseDeclaration(body, allowed)
    case CommentKind => ParseBody(body, "-->", v => Comment(v), ErrComment)
    case CDataKind => ParseBody(body, "]]>", v => Text(v, true), ErrCData)
    case UnknownKind => ParseBody(body, ">", v => Unknown(v), ErrUnknown)
    case TextKind => ParseText(body, cfg)
  }

  lemma ChildCases(s: string, depth: nat, top: bool, acc: seq<Node>, cfg: Config)
    requires 1 <= depth < MAX_DEPTH
    ensures var u, r := SkipWS(s), ParseOne(s, depth, top, acc, cfg);
            && (u == [] ==> r == NoNode)
            && (u != [] ==>
                  var kind := Identify(u);
                  var body := u[HeaderLength(kind)..];
                  && (kind.ElementKind? ==> r == ParseElement(body, depth, cfg))
                  && (!kind.ElementKind? ==> !kind.TextKind? || (s != [] && s[0] != '<'))
                  && (!kind.ElementKind? ==> r == LeafStep(kind, if kind.TextKind? then s else body, DeclarationAllowed(top, acc), cfg)))
  {
    hide SkipWS, ParseElement, ParseBody, ParseText, ParseDeclaration, DeclarationAllowed;
    if SkipWS(s) != [] && Identify(SkipWS(s)).TextKind? {
      TextStart(s);
    }
  }

  lemma ElementCases(s: string, depth: nat, cfg: Config)
    requires 1 <= depth < MAX_DEPTH
    ensures var h, r := ParseHead(s, cfg), ParseElement(s, depth, cfg);
            && (h.HeadFail? ==> r == Fail(h.error))
            && (h.Head? ==>
                  && (h.closing == ClosingTag ==> r == EndTag(h.name, h.rest))
                  && (h.closing == Closed ==> r == Got(Element(h.name, h.attrs, []), h.rest))
                  && (h.closing == Open ==>
                        r == if h.rest == [] then Fail(ErrMismatched) else FinishElement(h.name, h.attrs, Level(h.rest, depth + 1, false, cfg))))
  {
    hide ParseHead, Level, FinishElement;
  }

  lemma FinishCases(h: HeadResult, c: Content)
    ensures h.Head? ==>
              var r := FinishElement(h.name, h.attrs, c);
              && (c.AtEndTag? ==> r == if c.name == h.name then Got(Element(h.name, h.attrs, c.children), c.rest) else Fail(ErrMismatched))
              && (c.Failed? ==> r == Fail(c.error))
              && (c.Ended? ==> r == Fail(ErrParsing))
  {
  }

  lemma ContentCases(s: string, depth: nat, top: bool, acc: seq<Node>, cfg: Config)
    requires 1 <= depth < MAX_DEPTH
    ensures var r := ParseContent(s, depth, top, acc, cfg);
            if s == [] then r == Ended(acc)
            else match ParseOne(s, depth, top, acc, cfg)
                 case NoNode => r == Ended(acc)
                 case Fail(e) => r == Failed(e)
                 case EndTag(name, rest) => r == AtEndTag(acc, name, rest)
                 case Got(node, rest) => r == ParseContent(rest, depth, top, acc + [node], cfg)
  {
    hide ParseOne;
  }

  lemma LevelCases(t: string, depth: nat, top: bool, cfg: Config)
    requires 1 <= depth <= MAX_DEPTH
    ensures Level(t, depth, top, cfg) == if depth == MAX_DEPTH then Failed(ErrDepth) else ParseContent(t, depth, top, [], cfg)
  {
    hide ParseContent;
  }

  // ---------- documents ----------

  datatype DocResult = DocFail(error: XmlError) | Doc(bom: bool, children: seq<Node>)

  const BOM: string := ['\U{EF}', '\U{BB}', '\U{BF}']

  lemma BomNulFree()
    ensures NulFree(BOM)
  {
  }

  function SkipBom(s: string): string {
    if StartsWith(s, BOM) then s[3..] else s
  }

  /** XMLDocument::Parse. A closing tag at the top ends the document without an error. */
  function ParseDocument(s: string, cfg: Config): DocResult {
    var t := SkipWS(s);
    var u := SkipBom(t);
    if u == [] then DocFail(ErrEmptyDocument)
    else
      match ParseContent(u, 1, true, [], cfg)
      case Failed(e) => DocFail(e)
      case Ended(children) => Doc(StartsWith(t, BOM), children)
      case AtEndTag(children, _, _) => Doc(StartsWith(t, BOM), children)
  }

  // ---------- printing ----------

  function Escaped(v: string, restricted: bool, cfg: Config): string {
    if cfg.processEntities then Escape(v, restricted) else v
  }

  function Indent(depth: nat): (r: string)
    ensures |r| == 4 * depth && forall i :: 0 <= i < |r| ==> r[i] == ' '
  {
    if depth == 0 then [] else "    " + Indent(depth - 1)
  }

  /** What the printer knows when it comes to a node: how deep the node is, whether anything but text has been printed, and the depth
      of the element in which text has stopped the line breaks, or a negative number. */
  datatype Layout = Layout(pretty: bool, depth: nat, first: bool, textDepth: int)

  function Start(pretty: bool): Layout {
    Layout(pretty, 0, true, -1)
  }

  function Inside(p: Layout): Layout {
    p.(depth := p.depth + 1, first := false)
  }

  /** The same behind a node: text stops the line breaks of its parent until that is closed. */
  function LayoutAfter(n: Node, p: Layout): Layout
    decreases n, 1
  {
    match n
    case Element(_, _, children) =>
      var q := LayoutAfterAll(children, Inside(p));
      p.(first := false, textDepth := if q.textDepth == p.depth then -1 else q.textDepth)
    case Text(_, _) => p.(textDepth := p.depth - 1)
    case _ => p.(first := false)
  }

  function LayoutAfterAll(ns: seq<Node>, p: Layout): Layout
    decreases ns, 0
  {
    if ns == [] then p else LayoutAfterAll(ns[1..], LayoutAfter(ns[0], p))
  }

  predicate Breaks(p: Layout) {
    p.textDepth < 0 && !p.first
  }

  /** What pretty layout puts before a node. An element is indented even where no line breaks are written. */
  function Lead(n: Node, p: Layout): string {
    if !p.pretty || n.Text? then []
    else (if Breaks(p) then "\n" else []) + (if n.Element? || Breaks(p) then Indent(p.depth) else [])
  }

  /** What it puts before a closing tag at `depth`, behind children that have left `q`, and after an element. */
  function BeforeClose(q: Layout, depth: nat): string {
    if q.pretty && q.textDepth < 0 then "\n" + Indent(depth) else []
  }

  function AfterElement(p: Layout): string {
    if p.pretty && p.depth == 0 then "\n" else []
  }

  /** The printed attributes followed by `tail`. */
  function EmitAttrs(attrs: seq<Attr>, tail: string, cfg: Config): string {
    if attrs == [] then tail
    else " " + (attrs[0].name + ("=\"" + (Escaped(attrs[0].value, false, cfg) + ("\"" + EmitAttrs(attrs[1..], tail, cfg)))))
  }

  function CloseTag(name: string, tail: string): string {
    "</" + (name + (">" + tail))
  }

  /** What follows the attributes of a printed element. */
  function ElementEnd(n: Node, p: Layout, tail: string, cfg: Config): string
    requires n.Element?
    decreases n, 1
  {
    var after := AfterElement(p) + tail;
    var close := BeforeClose(LayoutAfterAll(n.children, Inside(p)), p.depth) + CloseTag(n.name, after);
    if n.children == [] then "/>" + after else ">" + EmitNodes(n.children, Inside(p), close, cfg)
  }

  /** The printed node, followed by `tail`. */
  function EmitNode(n: Node, p: Layout, tail: string, cfg: Config): string
    decreases n, 2
  {
    match n
    case Element(name, attrs, children) => "<" + (name + EmitAttrs(attrs, ElementEnd(n, p, tail, cfg), cfg))
    case Text(v, cdata) => if cdata then "<![CDATA[" + (v + ("]]>" + tail)) else Escaped(v, true, cfg) + tail
    case Comment(v) => "<!--" + (v + ("-->" + tail))
    case Declaration(v) => "<?" + (v + ("?>" + tail))
    case Unknown(v) => "<!" + (v + (">" + tail))
  }

  function EmitNodes(ns: seq<Node>, p: Layout, tail: string, cfg: Config): string
    decreases ns, 0
  {
    if ns == [] then tail
    else Lead(ns[0], p) + EmitNode(ns[0], p, EmitNodes(ns[1..], LayoutAfter(ns[0], p), tail, cfg), cfg)
  }

  function PrintDocument(bom: bool, children: seq<Node>, pretty: bool, cfg: Config): string {
    (if bom then BOM else []) + EmitNodes(children, Start(pretty), [], cfg)
  }
}
