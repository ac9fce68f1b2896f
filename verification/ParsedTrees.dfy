/** What holds of every tree that a parse yields, whatever the input was. */
module ParsedTrees {
  import opened Texts
  import opened XmlUtil
  import opened XmlText
  import opened XmlSyntax
  import opened RoundTrip

  // ---------- the shape of the tree ----------

  predicate ParsedAttrs(attrs: seq<Attr>) {
    DistinctNames(attrs) && forall i :: 0 <= i < |attrs| ==> ValidName(attrs[i].name) && NulFree(attrs[i].value)
  }

  /** A node read at `depth`, and everything below it. */
  predicate ParsedNode(n: Node, depth: nat)
    decreases n
  {
    match n
    case Element(name, attrs, children) =>
      && ValidName(name) && ParsedAttrs(attrs) && NoDeclaration(children) && NoAdjacentText(children)
      && (children != [] ==> depth + 1 < MAX_DEPTH)
      && forall i :: 0 <= i < |children| ==> ParsedNode(children[i], depth + 1)
    case Text(v, _) => NulFree(v)
    case Comment(v) => NulFree(v)
    case Declaration(v) => NulFree(v)
    case Unknown(v) => NulFree(v)
  }

  predicate DeclarationsFirst(ns: seq<Node>) {
    forall i, j :: 0 <= i < j < |ns| && ns[j].Declaration? ==> ns[i].Declaration?
  }

  predicate ParsedNodes(ns: seq<Node>, depth: nat, top: bool) {
    && NoAdjacentText(ns) && (if top then DeclarationsFirst(ns) else NoDeclaration(ns))
    && forall i :: 0 <= i < |ns| ==> ParsedNode(ns[i], depth)
  }

  lemma NameIsValid(s: string)
    ensures NameLength(s) > 0 ==> ValidName(s[..NameLength(s)])
  {
    StartCharIsNameChar(s);
  }

  lemma StartCharIsNameChar(s: string)
    ensures s != [] && IsNameStartChar(s[0]) ==> IsNameChar(s[0])
  {
  }

  lemma ValueIsNulFree(raw: string, f: Flags)
    ensures NulFree(Value(raw, f))
  {
    hide DecodeFrom;
    if f.collapse {
      CollapseNulFree(Cut(DecodeFrom(raw, f, 0, [])));
    }
  }

  lemma AttributeIsParsed(s: string, cfg: Config)
    ensures var r := ParseAttribute(s, cfg); r.AttrOk? ==> ValidName(r.attr.name) && NulFree(r.attr.value)
  {
    hide Value, Find, NameLength, OpenQuote, ParseAttribute, ValidName, NulFree;
    AttributeCases(s, cfg);
    NameIsValid(s);
    var k := NameLength(s);
    if 0 < k < |s| && OpenQuote(s[k..]).Some? {
      var u := OpenQuote(s[k..]).value;
      var found := Find(u[1..], [u[0]]);
      if found.Some? {
        ValueIsNulFree(u[1..][..found.value], AttrFlags(cfg));
      }
    }
  }

  lemma NewName(acc: seq<Attr>, a: Attr)
    requires ParsedAttrs(acc) && a.name !in Names(acc) && ValidName(a.name) && NulFree(a.value)
    ensures ParsedAttrs(acc + [a])
  {
    hide ValidName, NulFree;
    forall i | 0 <= i < |acc|
      ensures acc[i].name != a.name
    {
      assert acc[i].name in Names(acc);
    }
  }

  /** The attributes of a tag have pairwise different names, in the order of the text. */
  lemma {:induction false} AttrsAreParsed(s: string, acc: seq<Attr>, cfg: Config)
    requires ParsedAttrs(acc)
    ensures var r := ParseAttributes(s, acc, cfg); r.AttrsOk? ==> ParsedAttrs(r.attrs) && acc <= r.attrs
    decreases |s|
  {
    hide ParseAttributes, ParseAttribute, SkipWS, IsNameStartChar, ParsedAttrs, Names;
    AttributesCases(s, acc, cfg);
    var u := SkipWS(s);
    if u != [] && IsNameStartChar(u[0]) {
      var a := ParseAttribute(u, cfg);
      if a.AttrOk? && a.attr.name !in Names(acc) {
        AttributeIsParsed(u, cfg);
        NewName(acc, a.attr);
        AttrsAreParsed(a.rest, acc + [a.attr], cfg);
      }
    }
  }

  lemma HeadIsParsed(s: string, cfg: Config)
    ensures var h := ParseHead(s, cfg); h.Head? ==> ValidName(h.name) && ParsedAttrs(h.attrs)
  {
    hide SkipWS, NameLength, ParseAttributes, ParseHead, ValidName, ParsedAttrs;
    HeadCases(s, cfg);
    var t := SkipWS(s);
    var u := if t != [] && t[0] == '/' then t[1..] else t;
    NameIsValid(u);
    NoAttrsParsed();
    AttrsAreParsed(u[NameLength(u)..], [], cfg);
  }

  lemma NoAttrsParsed()
    ensures ParsedAttrs([])
  {
  }

  /** Behind a plain text stands a '<'. */
  predicate TextIsEnded(last: seq<Node>, s: string) {
    last != [] && PlainText(last[|last| - 1]) ==> s != [] && s[0] == '<'
  }

  lemma LeafIsParsed(kind: Kind, body: string, allowed: bool, depth: nat, cfg: Config)
    requires !kind.ElementKind? && (kind.TextKind? ==> body != [] && body[0] != '<')
    ensures var r := LeafStep(kind, body, allowed, cfg);
            r.Got? ==> !r.node.Element? && ParsedNode(r.node, depth) && TextIsEnded([r.node], r.rest)
                       && (r.node.Declaration? ==> allowed) && (PlainText(r.node) <==> kind.TextKind?)
  {
    hide Find, Value, NulFree, ParseText;
    if kind.TextKind? {
      TextCases(body, cfg);
    }
    forall raw: string, f: Flags
      ensures NulFree(Value(raw, f))
    {
      ValueIsNulFree(raw, f);
    }
  }

  lemma TextStaysText(s: string)
    requires s != [] && s[0] == '<'
    ensures SkipWS(s) == s && !Identify(s).TextKind?
  {
  }

  lemma AddParsed(ns: seq<Node>, n: Node, depth: nat, top: bool)
    requires ParsedNodes(ns, depth, top) && ParsedNode(n, depth)
    requires n.Declaration? ==> DeclarationAllowed(top, ns)
    requires ns != [] && PlainText(ns[|ns| - 1]) ==> !PlainText(n)
    ensures ParsedNodes(ns + [n], depth, top)
  {
    hide ParsedNode;
    var all := ns + [n];
    if top && n.Declaration? && ns != [] {
      assert forall i :: 0 <= i < |ns| - 1 ==> ns[|ns| - 1].Declaration? ==> ns[i].Declaration?;
    }
  }

  lemma NothingParsed(depth: nat, top: bool)
    ensures ParsedNodes([], depth, top)
  {
  }

  lemma {:induction false} NodeIsParsed(s: string, depth: nat, top: bool, acc: seq<Node>, cfg: Config)
    requires 1 <= depth < MAX_DEPTH
    ensures var r := ParseOne(s, depth, top, acc, cfg);
            r.Got? ==> && ParsedNode(r.node, depth) && TextIsEnded([r.node], r.rest)
                       && (r.node.Declaration? ==> DeclarationAllowed(top, acc))
                       && (s != [] && s[0] == '<' ==> !PlainText(r.node))
    decreases |s|, 1
  {
    hide SkipWS, ParseOne, ParseElement, LeafStep, DeclarationAllowed, ParsedNode, Identify;
    ChildCases(s, depth, top, acc, cfg);
    var u := SkipWS(s);
    if u != [] {
      if s[0] == '<' {
        TextStaysText(s);
      }
      var kind := Identify(u);
      var body := u[HeaderLength(kind)..];
      if kind.ElementKind? {
        ElementIsParsed(body, depth, cfg);
      } else {
        LeafIsParsed(kind, if kind.TextKind? then s else body, DeclarationAllowed(top, acc), depth, cfg);
      }
    }
  }

  lemma {:induction false} ElementIsParsed(s: string, depth: nat, cfg: Config)
    requires 1 <= depth < MAX_DEPTH
    ensures var r := ParseElement(s, depth, cfg); r.Got? ==> r.node.Element? && ParsedNode(r.node, depth)
    decreases |s|, 0
  {
    hide ParseHead, ParseElement, FinishElement, Level, ParseContent, ValidName, ParsedAttrs;
    ElementCases(s, depth, cfg);
    HeadIsParsed(s, cfg);
    var h := ParseHead(s, cfg);
    if h.Head? && h.closing == Open && h.rest != [] {
      LevelCases(h.rest, depth + 1, false, cfg);
      var c := Level(h.rest, depth + 1, false, cfg);
      FinishCases(h, c);
      if depth + 1 < MAX_DEPTH {
        NothingParsed(depth + 1, false);
        ContentIsParsed(h.rest, depth + 1, false, [], cfg);
      }
    }
  }

  lemma {:induction false} ContentIsParsed(s: string, depth: nat, top: bool, acc: seq<Node>, cfg: Config)
    requires 1 <= depth < MAX_DEPTH && ParsedNodes(acc, depth, top) && TextIsEnded(acc, s)
    ensures var c := ParseContent(s, depth, top, acc, cfg);
            !c.Failed? ==> ParsedNodes(c.children, depth, top)
    decreases |s|, 2
  {
    hide ParseOne, ParseContent, ParsedNodes, ParsedNode, DeclarationAllowed;
    ContentCases(s, depth, top, acc, cfg);
    if s != [] {
      NodeIsParsed(s, depth, top, acc, cfg);
      var r := ParseOne(s, depth, top, acc, cfg);
      if r.Got? {
        AddParsed(acc, r.node, depth, top);
        ContentIsParsed(r.rest, depth, top, acc + [r.node], cfg);
      }
    }
  }

  /** Every parsed document: names are names, attribute names are pairwise distinct, no element lies deeper than the
      limit, declarations come first and only at the top, and no two plain texts are neighbours. */
  lemma DocumentIsParsed(s: string, cfg: Config)
    ensures var r := ParseDocument(s, cfg); r.Doc? ==> ParsedNodes(r.children, 1, true)
  {
    hide ParseContent, ParsedNodes, SkipWS, SkipBom;
    NothingParsed(1, true);
    ContentIsParsed(SkipBom(SkipWS(s)), 1, true, [], cfg);
  }

  // ---------- the texts that are parsed ----------

  /** `t` is what follows the blanks at the front of `s`. */
  predicate PastBlanks(s: string, t: string) {
    |t| <= |s| && t == s[|s| - |t|..] && OnlyBlanks(s[..|s| - |t|]) && (t == [] || t[0] !in BLANKS)
  }

  predicate NameMark(c: char) {
    c in LOWER || c in UPPER || c == ':' || c == '_' || c as int >= 128
  }

  predicate NameText(name: string) {
    name != [] && NameMark(name[0]) && forall i :: 0 <= i < |name| ==> NameMark(name[i]) || name[i] in DIGITS || name[i] == '.' || name[i] == '-'
  }

  /** What follows a name is no part of it. */
  predicate NameEnds(s: string) {
    s != [] ==> !NameMark(s[0]) && s[0] !in DIGITS && s[0] != '.' && s[0] != '-'
  }

  /** A name, an equals sign and a value in quotes of either kind; `b` and `c` are the blanks between them. */
  predicate AttrText(s: string, name: string, b: string, c: string, q: char, raw: string, rest: string) {
    && s == name + (b + ("=" + (c + ([q] + (raw + ([q] + rest))))))
    && NameText(name) && OnlyBlanks(b) && OnlyBlanks(c) && (q == '"' || q == '\'') && Without(raw, q)
  }

  ghost predicate AttrSpelled(a: Attr, s: string, rest: string, cfg: Config) {
    exists b, c, q, raw :: AttrText(s, a.name, b, c, q, raw, rest) && a.value == Value(raw, Flags(cfg.processEntities, true, false))
  }

  /** Attributes, with blanks before each of them and behind the last. */
  ghost predicate AttrsSpelled(attrs: seq<Attr>, s: string, rest: string, cfg: Config)
    decreases attrs
  {
    if attrs == [] then PastBlanks(s, rest)
    else exists u, v :: PastBlanks(s, u) && AttrSpelled(attrs[0], u, v, cfg) && AttrsSpelled(attrs[1..], v, rest, cfg)
  }

  /** A tag without its '<'. */
  predicate TagText(s: string, slash: string, name: string, u: string, closing: Closing, end: string, rest: string) {
    && PastBlanks(s, slash + (name + u)) && NameText(name) && NameEnds(u)
    && ((closing == Open && slash == "" && end == ">" + rest)
        || (closing == ClosingTag && slash == "/" && end == ">" + rest)
        || (closing == Closed && (slash == "" || slash == "/") && end == "/>" + rest))
  }

  ghost predicate TagSpelled(s: string, closing: Closing, name: string, attrs: seq<Attr>, rest: string, cfg: Config) {
    DistinctNames(attrs) && exists slash, u, end :: TagText(s, slash, name, u, closing, end, rest) && AttrsSpelled(attrs, u, end, cfg)
  }

  ghost predicate TagAt(s: string, closing: Closing, name: string, attrs: seq<Attr>, rest: string, cfg: Config) {
    exists t :: PastBlanks(s, "<" + t) && TagSpelled(t, closing, name, attrs, rest, cfg)
  }

  /** `s` starts, behind blanks, with the end tag of `name`, and `rest` follows. */
  ghost predicate EndTagAt(s: string, name: string, rest: string, cfg: Config) {
    exists attrs :: TagAt(s, ClosingTag, name, attrs, rest, cfg)
  }

  /** `raw` between `open` and the first `close` behind it. */
  predicate Between(s: string, open: string, raw: string, close: string, rest: string) {
    var body := raw + close + rest;
    s == open + body && forall i :: 0 <= i < |raw| ==> !(close <= body[i..])
  }

  ghost predicate Markup(s: string, open: string, raw: string, close: string, rest: string) {
    exists t :: PastBlanks(s, t) && Between(t, open, raw, close, rest)
  }

  /** The raw form of a plain text: something to see, and markup behind it. */
  predicate TextAt(s: string, raw: string, rest: string) {
    s == raw + rest && |rest| >= 2 && rest[0] == '<' && Without(raw, '<') && !OnlyBlanks(raw)
  }

  ghost predicate UnknownAt(s: string, raw: string, rest: string) {
    Markup(s, "<!", raw, ">", rest) && !("--" <= raw) && !("[CDATA[" <= raw)
  }

  /** The text `s` spells node `n` of a list at `depth` and then goes on with `rest`: a grammar that knows nothing of end tags
      that travel through calls or of nodes that are made and deleted again. */
  ghost predicate NodeSpelled(n: Node, s: string, rest: string, depth: nat, cfg: Config)
    decreases n, 1
  {
    match n
    case Element(name, attrs, children) =>
      || (children == [] && TagAt(s, Closed, name, attrs, rest, cfg))
      || (depth + 1 < 100 && NoDeclaration(children)
          && exists inner, u :: TagAt(s, Open, name, attrs, inner, cfg) && NodesSpelled(children, inner, u, depth + 1, cfg) && EndTagAt(u, name, rest, cfg))
    case Text(v, cdata) =>
      if cdata then exists raw :: Markup(s, "<![CDATA[", raw, "]]>", rest) && v == Value(raw, Flags(false, true, false))
      else exists raw :: TextAt(s, raw, rest) && v == Value(raw, Flags(cfg.processEntities, true, cfg.collapse))
    case Comment(v) => exists raw :: Markup(s, "<!--", raw, "-->", rest) && v == Value(raw, Flags(false, true, false))
    case Declaration(v) => exists raw :: Markup(s, "<?", raw, "?>", rest) && v == Value(raw, Flags(false, true, false))
    case Unknown(v) => exists raw :: UnknownAt(s, raw, rest) && v == Value(raw, Flags(false, true, false))
  }

  ghost predicate NodesSpelled(ns: seq<Node>, s: string, rest: string, depth: nat, cfg: Config)
    decreases ns, 0
  {
    if ns == [] then s == rest
    else exists mid :: NodeSpelled(ns[0], s, mid, depth, cfg) && NodesSpelled(ns[1..], mid, rest, depth, cfg)
  }

  // ---------- blanks, names and attributes ----------

  lemma PastBlanksIs(s: string, t: string)
    ensures PastBlanks(s, t) <==> t == SkipWS(s)
  {
    hide BLANKS;
    var u := SkipWS(s);
    OnlyBlanksIs(s[..|s| - |u|]);
    if u != [] {
      BlankIs(u[0]);
    }
    if PastBlanks(s, t) {
      OnlyBlanksIs(s[..|s| - |t|]);
      if t != [] {
        BlankIs(t[0]);
      }
      assert forall i :: 0 <= i < |s| - |t| ==> s[..|s| - |t|][i] == s[i];
      SkipWSIsUnique(s, |s| - |t|);
    } else {
      assert forall i :: 0 <= i < |s| - |u| ==> s[..|s| - |u|][i] == s[i];
    }
  }

  lemma OnlyBlanksIs(w: string)
    ensures OnlyBlanks(w) <==> AllBlank(w)
  {
    hide BLANKS;
    forall i | 0 <= i < |w|
      ensures w[i] in BLANKS <==> IsWhiteSpace(w[i])
    {
      BlankIs(w[i]);
    }
  }

  lemma NameTextIs(name: string)
    ensures NameText(name) <==> ValidName(name)
    ensures NameEnds(name) <==> name == [] || !IsNameChar(name[0])
  {
    hide IsNameStartChar, IsNameChar, LOWER, UPPER, DIGITS;
    assert ":_.-" == [':', '_', '.', '-'];
    forall i | 0 <= i < |name|
      ensures NameMark(name[i]) <==> IsNameStartChar(name[i])
      ensures IsNameChar(name[i]) <==> NameMark(name[i]) || name[i] in DIGITS || name[i] == '.' || name[i] == '-'
    {
      NameCharIs(name[i]);
    }
  }

  /** A run in front of something that is no blank. */
  lemma SkipRun(b: string, t: string)
    requires OnlyBlanks(b) && (t == [] || !IsWhiteSpace(t[0]))
    ensures SkipWS(b + t) == t
  {
    OnlyBlanksIs(b);
    SkipOver(b, t);
    SkipNothing(t);
  }

  /** The parts of an attribute, as ParseAttribute finds them. */
  lemma AttrPartsRead(s: string, name: string, b: string, c: string, q: char, raw: string, rest: string)
    requires AttrText(s, name, b, c, q, raw, rest)
    ensures NameLength(s) == |name| < |s| && s[..|name|] == name
    ensures OpenQuote(s[|name|..]) == Some([q] + (raw + ([q] + rest)))
    ensures Find(raw + ([q] + rest), [q]) == Some(|raw|)
  {
    hide SkipWS, NameLength, Find, ValidName, NameText, OnlyBlanks;
    var quote := [q] + (raw + ([q] + rest));
    var eq := "=" + (c + quote);
    NameTextIs(name);
    SkipRun(c, quote);
    SkipRun(b, eq);
    assert eq[1..] == c + quote;
    NoNameChar(b, eq);
    NameIs(name, b + eq);
    Drop(name, b + eq);
    FindChar(raw, q, rest);
  }

  lemma NoNameChar(b: string, eq: string)
    requires OnlyBlanks(b) && eq != [] && eq[0] == '='
    ensures !IsNameChar((b + eq)[0])
  {
    OnlyBlanksIs(b);
    assert (b + eq)[0] == if b == [] then eq[0] else b[0];
  }

  lemma AttrRead(a: Attr, s: string, rest: string, cfg: Config)
    requires AttrSpelled(a, s, rest, cfg)
    ensures ParseAttribute(s, cfg) == AttrOk(a, rest) && s != [] && IsNameStartChar(s[0]) && ValidName(a.name)
  {
    hide Find, NameLength, OpenQuote, ParseAttribute, NameText, OnlyBlanks, Value;
    var b, c, q, raw :| AttrText(s, a.name, b, c, q, raw, rest) && a.value == Value(raw, Flags(cfg.processEntities, true, false));
    AttrPartsRead(s, a.name, b, c, q, raw, rest);
    AttributeCases(s, cfg);
    NameTextIs(a.name);
    Drop([q], raw + ([q] + rest));
    Drop(raw, [q] + rest);
    Drop([q], rest);
    DropTwice(raw + ([q] + rest), |raw|, 1);
  }

  lemma Skipped(s: string)
    ensures var t := SkipWS(s); s == s[..|s| - |t|] + t && OnlyBlanks(s[..|s| - |t|])
  {
    hide SkipWS, OnlyBlanks;
    var t := SkipWS(s);
    OnlyBlanksIs(s[..|s| - |t|]);
    DropTail(s, t);
  }

  lemma DropTail(s: string, t: string)
    requires |t| <= |s| && t == s[|s| - |t|..]
    ensures s == s[..|s| - |t|] + t
  {
  }

  lemma QuoteParts(s: string) returns (b: string, c: string)
    requires OpenQuote(s).Some?
    ensures var quote := OpenQuote(s).value; s == b + ("=" + (c + quote)) && OnlyBlanks(b) && OnlyBlanks(c)
  {
    hide SkipWS, OnlyBlanks;
    var eq := SkipWS(s);
    var rest := eq[1..];
    var quote := SkipWS(rest);
    Skipped(s);
    Skipped(rest);
    b, c := s[..|s| - |eq|], rest[..|rest| - |quote|];
    FirstOff(eq, '=');
  }

  lemma FirstOff(s: string, c: char)
    requires s != [] && s[0] == c
    ensures s == [c] + s[1..]
  {
  }

  lemma AttrFound(s: string, cfg: Config)
    ensures var r := ParseAttribute(s, cfg); r.AttrOk? ==> AttrSpelled(r.attr, s, r.rest, cfg)
  {
    hide Find, NameLength, OpenQuote, ParseAttribute, OnlyBlanks, Value, NameText, AttrText;
    var r := ParseAttribute(s, cfg);
    AttributeCases(s, cfg);
    if r.AttrOk? {
      var k := NameLength(s);
      var quote := OpenQuote(s[k..]).value;
      var n := Find(quote[1..], [quote[0]]).value;
      var raw, rest := quote[1..][..n], quote[1..][n + 1..];
      var b, c := AttrPartsFound(s, k, quote, n);
      assert AttrText(s, s[..k], b, c, quote[0], raw, rest);
      assert r.attr.value == Value(raw, Flags(cfg.processEntities, true, false));
    }
  }

  lemma AttrPartsFound(s: string, k: nat, quote: string, n: nat) returns (b: string, c: string)
    requires k == NameLength(s) && 0 < k < |s| && OpenQuote(s[k..]) == Some(quote) && quote != [] && Find(quote[1..], [quote[0]]) == Some(n)
    ensures n < |quote[1..]| && AttrText(s, s[..k], b, c, quote[0], quote[1..][..n], quote[1..][n + 1..])
  {
    hide Find, NameLength, OpenQuote, OnlyBlanks, NameText;
    b, c := QuoteParts(s[k..]);
    NameIsValid(s);
    NameTextIs(s[..k]);
    RawEnds(quote[1..], quote[0], n);
    FirstOff(quote, quote[0]);
    DropTail(s, s[k..]);
  }

  lemma RawEnds(s: string, q: char, n: nat)
    requires Find(s, [q]) == Some(n)
    ensures n < |s| && s == s[..n] + ([q] + s[n + 1..]) && Without(s[..n], q)
  {
    hide Find, StartsWith;
    FindMeans(s, [q]);
    Associates(s[..n], [q], s[n + 1..]);
    forall i | 0 <= i < n
      ensures s[i] != q
    {
      NotAt(s, q, i);
    }
  }

  lemma NotAt(s: string, q: char, i: nat)
    requires i < |s| && !StartsWith(s[i..], [q])
    ensures s[i] != q
  {
  }

  /** Attributes with different names, none of which has been read before: the loop reads them and stops at the end of the tag. */
  lemma {:induction false} AttrsComplete(attrs: seq<Attr>, s: string, end: string, acc: seq<Attr>, cfg: Config)
    requires AttrsSpelled(attrs, s, end, cfg) && DistinctNames(attrs) && Fresh(acc, attrs)
    ensures ParseAttributes(s, acc, cfg) == ParseAttributes(end, acc + attrs, cfg)
    decreases |attrs|
  {
    hide ParseAttributes, ParseAttribute, SkipWS, IsNameStartChar, AttrSpelled, PastBlanks, Names, Fresh, DistinctNames;
    if attrs == [] {
      PastBlanksIs(s, end);
      SkipTwice(s, end);
      AttributesCases(s, acc, cfg);
      AttributesCases(end, acc, cfg);
      assert acc + attrs == acc;
    } else {
      var u, v :| PastBlanks(s, u) && AttrSpelled(attrs[0], u, v, cfg) && AttrsSpelled(attrs[1..], v, end, cfg);
      PastBlanksIs(s, u);
      AttrRead(attrs[0], u, v, cfg);
      AttributesCases(s, acc, cfg);
      FreshFirst(acc, attrs);
      AttrsComplete(attrs[1..], v, end, acc + [attrs[0]], cfg);
      assert acc + [attrs[0]] + attrs[1..] == acc + attrs;
    }
  }

  lemma SkipTwice(s: string, t: string)
    requires t == SkipWS(s)
    ensures SkipWS(t) == t
  {
    SkipNothing(t);
  }

  lemma FreshFirst(acc: seq<Attr>, attrs: seq<Attr>)
    requires attrs != [] && Fresh(acc, attrs) && DistinctNames(attrs)
    ensures attrs[0].name !in Names(acc) && Fresh(acc + [attrs[0]], attrs[1..]) && DistinctNames(attrs[1..])
  {
  }

  /** And whatever the loop reads is spelled so. */
  lemma {:induction false} AttrsFound(s: string, acc: seq<Attr>, cfg: Config) returns (attrs: seq<Attr>, end: string)
    requires ParseAttributes(s, acc, cfg).AttrsOk?
    ensures var r := ParseAttributes(s, acc, cfg);
            r.attrs == acc + attrs && AttrsSpelled(attrs, s, end, cfg) && end == (if r.selfClosed then "/>" else ">") + r.rest
    decreases |s|
  {
    hide ParseAttributes, ParseAttribute, SkipWS, IsNameStartChar, AttrSpelled, PastBlanks, Names;
    var u := SkipWS(s);
    PastBlanksIs(s, u);
    AttributesCases(s, acc, cfg);
    if u != [] && IsNameStartChar(u[0]) {
      var a := ParseAttribute(u, cfg);
      AttrFound(u, cfg);
      var more;
      more, end := AttrsFound(a.rest, acc + [a.attr], cfg);
      attrs := [a.attr] + more;
      assert attrs[0] == a.attr && attrs[1..] == more;
      assert acc + [a.attr] + more == acc + attrs;
    } else {
      attrs, end := [], u;
      assert acc + attrs == acc;
      assert u[0] == '/' ==> u == "/>" + u[2..];
      assert u[0] == '>' ==> u == ">" + u[1..];
    }
  }

  // ---------- tags ----------

  predicate HeadIsAt(s: string, closing: Closing, name: string, attrs: seq<Attr>, rest: string, cfg: Config) {
    var t := SkipWS(s);
    t != [] && t[0] == '<' && ParseHead(t[1..], cfg) == Head(closing, name, attrs, rest)
  }

  lemma TagComplete(s: string, closing: Closing, name: string, attrs: seq<Attr>, rest: string, cfg: Config)
    requires TagSpelled(s, closing, name, attrs, rest, cfg)
    ensures ParseHead(s, cfg) == Head(closing, name, attrs, rest)
  {
    hide SkipWS, NameLength, ParseAttributes, ParseHead, AttrsSpelled, PastBlanks, NameText, NameEnds, DistinctNames;
    var slash, u, end :| TagText(s, slash, name, u, closing, end, rest) && AttrsSpelled(attrs, u, end, cfg);
    NameTextIs(name);
    NameTextIs(u);
    PastBlanksIs(s, slash + (name + u));
    NameIs(name, u);
    Drop(name, u);
    NoneRead(attrs);
    AttrsComplete(attrs, u, end, [], cfg);
    assert [] + attrs == attrs;
    TagEnd(end, attrs, cfg);
    HeadCases(s, cfg);
    NoSlash(name);
    Drop(slash, name + u);
    var t := slash + (name + u);
    assert slash == "" ==> t == name + u && t[0] == name[0];
  }

  lemma NoneRead(attrs: seq<Attr>)
    ensures Fresh([], attrs)
  {
  }

  lemma NoSlash(name: string)
    requires ValidName(name)
    ensures name[0] != '/'
  {
  }

  lemma TagFound(s: string, cfg: Config)
    ensures var h := ParseHead(s, cfg); h.Head? ==> TagSpelled(s, h.closing, h.name, h.attrs, h.rest, cfg)
  {
    hide SkipWS, NameLength, ParseAttributes, ParseHead, AttrsSpelled, PastBlanks, NameText, NameEnds, ValidName, DistinctNames, TagText;
    var h := ParseHead(s, cfg);
    HeadCases(s, cfg);
    if h.Head? {
      var t := SkipWS(s);
      var slash := if t != [] && t[0] == '/' then "/" else "";
      var u := t[|slash|..];
      HeadIsParsed(s, cfg);
      assert ParsedAttrs(h.attrs);
      var attrs, end := AttrsFound(u[NameLength(u)..], [], cfg);
      assert [] + attrs == attrs;
      TagParts(s, t, slash, u, h.closing, end, h.rest);
    }
  }

  lemma TagParts(s: string, t: string, slash: string, u: string, closing: Closing, end: string, rest: string)
    requires t == SkipWS(s) && slash == (if t != [] && t[0] == '/' then "/" else "") && u == t[|slash|..] && NameLength(u) > 0
    requires end == if closing == Closed then "/>" + rest else ">" + rest
    requires closing != Closed ==> closing == if slash == "/" then ClosingTag else Open
    ensures TagText(s, slash, u[..NameLength(u)], u[NameLength(u)..], closing, end, rest)
  {
    hide SkipWS, NameLength, PastBlanks, NameText, NameEnds, ValidName;
    var k := NameLength(u);
    PastBlanksIs(s, t);
    NameIsValid(u);
    NameTextIs(u[..k]);
    NameTextIs(u[k..]);
    NameStops(u);
    assert u == u[..k] + u[k..];
    SlashFirst(t, slash, u);
  }

  lemma SlashFirst(t: string, slash: string, u: string)
    requires slash == (if t != [] && t[0] == '/' then "/" else "") && u == t[|slash|..]
    ensures t == slash + u && (slash == "" || slash == "/")
  {
  }

  lemma NameStops(s: string)
    ensures NameLength(s) > 0 ==> s[NameLength(s)..] == [] || !IsNameChar(s[NameLength(s)..][0])
  {
  }

  /** The tags that are read are exactly the tags of the grammar. */
  lemma TagAtIs(s: string, closing: Closing, name: string, attrs: seq<Attr>, rest: string, cfg: Config)
    ensures TagAt(s, closing, name, attrs, rest, cfg) <==> HeadIsAt(s, closing, name, attrs, rest, cfg)
  {
    hide SkipWS, ParseHead, TagSpelled, PastBlanks;
    var u := SkipWS(s);
    if TagAt(s, closing, name, attrs, rest, cfg) {
      var t :| PastBlanks(s, "<" + t) && TagSpelled(t, closing, name, attrs, rest, cfg);
      PastBlanksIs(s, "<" + t);
      Drop("<", t);
      TagComplete(t, closing, name, attrs, rest, cfg);
    }
    if HeadIsAt(s, closing, name, attrs, rest, cfg) {
      TagFound(u[1..], cfg);
      assert u == "<" + u[1..];
      PastBlanksIs(s, u);
    }
  }

  lemma EndTagIs(s: string, name: string, rest: string, cfg: Config)
    ensures EndTagAt(s, name, rest, cfg) <==>
              var t := SkipWS(s);
              t != [] && t[0] == '<' && var h := ParseHead(t[1..], cfg); h.Head? && h.closing == ClosingTag && h.name == name && h.rest == rest
  {
    hide SkipWS, ParseHead, TagAt;
    var t := SkipWS(s);
    if EndTagAt(s, name, rest, cfg) {
      var attrs :| TagAt(s, ClosingTag, name, attrs, rest, cfg);
      TagAtIs(s, ClosingTag, name, attrs, rest, cfg);
    }
    if t != [] && t[0] == '<' && ParseHead(t[1..], cfg).Head? {
      var h := ParseHead(t[1..], cfg);
      TagAtIs(s, h.closing, h.name, h.attrs, h.rest, cfg);
    }
  }

  lemma StartsWithMeans(s: string, t: string)
    ensures StartsWith(s, t) <==> t <= s
  {
  }

  lemma MarkupIs(s: string, open: string, raw: string, close: string, rest: string)
    ensures Markup(s, open, raw, close, rest) <==> Between(SkipWS(s), open, raw, close, rest)
  {
    hide SkipWS, PastBlanks, Between;
    PastBlanksIs(s, SkipWS(s));
    if Markup(s, open, raw, close, rest) {
      var t :| PastBlanks(s, t) && Between(t, open, raw, close, rest);
      PastBlanksIs(s, t);
    }
  }

  // ---------- what is parsed is spelled ----------

  lemma NoneSpelled(s: string, depth: nat, cfg: Config)
    ensures NodesSpelled([], s, s, depth, cfg)
  {
  }

  lemma {:induction false} SpelledAppend(ns: seq<Node>, n: Node, s: string, mid: string, rest: string, depth: nat, cfg: Config)
    requires NodesSpelled(ns, s, mid, depth, cfg) && NodeSpelled(n, mid, rest, depth, cfg)
    ensures NodesSpelled(ns + [n], s, rest, depth, cfg)
    decreases ns
  {
    hide NodeSpelled;
    var all := ns + [n];
    if ns == [] {
      assert all[0] == n && all[1..] == [];
      assert NodesSpelled([], rest, rest, depth, cfg);
    } else {
      var k :| NodeSpelled(ns[0], s, k, depth, cfg) && NodesSpelled(ns[1..], k, mid, depth, cfg);
      SpelledAppend(ns[1..], n, k, mid, rest, depth, cfg);
      assert all[0] == ns[0] && all[1..] == ns[1..] + [n];
    }
  }

  lemma FindMeans(s: string, t: string)
    requires t != []
    ensures var r := Find(s, t);
            r.Some? ==> && r.value + |t| <= |s| && s == s[..r.value] + t + s[r.value + |t|..]
                        && forall i :: 0 <= i < r.value ==> !StartsWith(s[i..], t)
  {
    hide Find, StartsWith;
    var r := Find(s, t);
    if r.Some? {
      SplitAt(s, r.value, t);
      forall i | 0 <= i < r.value
        ensures !StartsWith(s[i..], t)
      {
        NotBefore(s, t, i);
      }
    }
  }

  lemma {:induction false} NotBefore(s: string, t: string, i: nat)
    requires Find(s, t).Some? && i < Find(s, t).value <= |s|
    ensures !StartsWith(s[i..], t)
  {
    hide StartsWith;
    if i == 0 {
      assert s[0..] == s;
    } else {
      NotBefore(s[1..], t, i - 1);
      assert s[1..][i - 1..] == s[i..];
    }
  }

  lemma SplitAt(s: string, k: nat, t: string)
    requires k <= |s| && StartsWith(s[k..], t)
    ensures k + |t| <= |s| && s == s[..k] + t + s[k + |t|..]
  {
    assert s[k..] == t + s[k..][|t|..];
  }

  /** A body that ParseBody has read stands between its opening and the first closing behind it. */
  lemma BodyBetween(u: string, open: string, term: string, make: string -> Node, error: XmlError) returns (raw: string)
    requires |open| <= |u| && StartsWith(u, open) && term != []
    ensures var r := ParseBody(u[|open|..], term, make, error);
            !r.EndTag? && !r.NoNode? && (r.Got? ==> r.node == make(Value(raw, BODY)) && Between(u, open, raw, term, r.rest))
  {
    hide StartsWith, Find, Value;
    var body := u[|open|..];
    FindMeans(body, term);
    StartsWithIs(u, open);
    raw := [];
    var found := Find(body, term);
    if found.Some? {
      raw := body[..found.value];
      forall i | 0 <= i < found.value
        ensures !(term <= body[i..])
      {
        StartsWithMeans(body[i..], term);
      }
    }
  }

  lemma StartsWithIs(u: string, open: string)
    requires StartsWith(u, open)
    ensures u == open + u[|open|..]
  {
  }

  lemma HeaderStands(u: string)
    requires u != []
    ensures match Identify(u)
            case DeclarationKind => StartsWith(u, "<?")
            case CommentKind => StartsWith(u, "<!--")
            case CDataKind => StartsWith(u, "<![CDATA[")
            case UnknownKind => StartsWith(u, "<!") && !StartsWith(u, "<!--") && !StartsWith(u, "<![CDATA[")
            case ElementKind => u[0] == '<'
            case TextKind => u[0] != '<'
  {
  }

  /** What an unknown node begins with is visible in its raw text. */
  lemma UnknownRaw(s: string, raw: string, rest: string)
    requires Between(SkipWS(s), "<!", raw, ">", rest) && !StartsWith(SkipWS(s), "<!--") && !StartsWith(SkipWS(s), "<![CDATA[")
    ensures UnknownAt(s, raw, rest)
  {
    hide SkipWS, Markup;
    MarkupIs(s, "<!", raw, ">", rest);
    RawStart(SkipWS(s), raw, rest, "--", "<!--");
    RawStart(SkipWS(s), raw, rest, "[CDATA[", "<![CDATA[");
  }

  lemma RawStart(u: string, raw: string, rest: string, start: string, header: string)
    requires Between(u, "<!", raw, ">", rest) && header == "<!" + start
    ensures start <= raw ==> StartsWith(u, header)
  {
    if start <= raw {
      assert raw == start + raw[|start|..];
      assert u == "<!" + (start + raw[|start|..] + ">" + rest);
    }
  }

  lemma LeafIsSpelled(s: string, depth: nat, top: bool, acc: seq<Node>, cfg: Config)
    requires 1 <= depth < MAX_DEPTH && SkipWS(s) != [] && !Identify(SkipWS(s)).ElementKind?
    ensures var r := ParseOne(s, depth, top, acc, cfg); !r.EndTag? && (r.Got? ==> NodeSpelled(r.node, s, r.rest, depth, cfg))
  {
    hide ParseOne, ParseText, ParseBody, Identify, StartsWith, SkipWS, Value, DeclarationAllowed, Between, Markup, UnknownAt, NodesSpelled, EndTagAt, TagAt;
    ChildCases(s, depth, top, acc, cfg);
    var u, r := SkipWS(s), ParseOne(s, depth, top, acc, cfg);
    HeaderStands(u);
    match Identify(u) {
      case TextKind =>
        TextIsSpelled(s, depth, cfg);
      case DeclarationKind =>
        var raw := BodyBetween(u, "<?", "?>", v => Declaration(v), ErrDeclaration);
        MarkupOf(s, "<?", raw, "?>", r);
      case CommentKind =>
        var raw := BodyBetween(u, "<!--", "-->", v => Comment(v), ErrComment);
        MarkupOf(s, "<!--", raw, "-->", r);
      case CDataKind =>
        var raw := BodyBetween(u, "<![CDATA[", "]]>", v => Text(v, true), ErrCData);
        MarkupOf(s, "<![CDATA[", raw, "]]>", r);
      case UnknownKind =>
        var raw := BodyBetween(u, "<!", ">", v => Unknown(v), ErrUnknown);
        if r.Got? {
          UnknownRaw(s, raw, r.rest);
        }
    }
  }

  lemma MarkupOf(s: string, open: string, raw: string, close: string, r: Step)
    ensures r.Got? && Between(SkipWS(s), open, raw, close, r.rest) ==> Markup(s, open, raw, close, r.rest)
  {
    hide SkipWS, Markup, Between;
    if r.Got? {
      MarkupIs(s, open, raw, close, r.rest);
    }
  }

  lemma TextIsSpelled(s: string, depth: nat, cfg: Config)
    requires s != [] && s[0] != '<' && SkipWS(s) != [] && SkipWS(s)[0] != '<'
    ensures var r := ParseText(s, cfg); !r.EndTag? && (r.Got? ==> NodeSpelled(r.node, s, r.rest, depth, cfg))
  {
    hide Value, Find, ParseText, TextAt, SkipWS;
    TextCases(s, cfg);
    var found := Find(s, "<");
    if found.Some? && s[found.value + 1..] != [] {
      TextStands(s, found.value);
    }
  }

  lemma TextStands(s: string, k: nat)
    requires Find(s, "<") == Some(k) && k + 1 < |s| && s[k] == '<' && SkipWS(s) != [] && SkipWS(s)[0] != '<'
    ensures TextAt(s, s[..k], s[k..])
  {
    hide Find, AllBlank, SkipWS, OnlyBlanks;
    assert "<" == ['<'];
    RawEnds(s, '<', k);
    SeenBefore(s, k);
    OnlyBlanksIs(s[..k]);
  }

  /** The first character that is no blank comes before a '<' that it is not. */
  lemma SeenBefore(s: string, k: nat)
    requires k < |s| && s[k] == '<' && SkipWS(s) != [] && SkipWS(s)[0] != '<'
    ensures !AllBlank(s[..k])
  {
    hide SkipWS;
    var j := |s| - |SkipWS(s)|;
    assert s[j] == SkipWS(s)[0];
    assert j < k;
    assert s[..k][j] == s[j];
  }

  lemma {:induction false} ElementIsSpelled(s: string, depth: nat, top: bool, acc: seq<Node>, cfg: Config)
    requires 1 <= depth < MAX_DEPTH && SkipWS(s) != [] && Identify(SkipWS(s)).ElementKind?
    ensures match ParseOne(s, depth, top, acc, cfg)
            case Got(node, rest) => NodeSpelled(node, s, rest, depth, cfg)
            case EndTag(name, rest) => EndTagAt(s, name, rest, cfg)
            case _ => true
    decreases |s|, 0
  {
    hide ParseOne, ParseElement, ParseHead, FinishElement, Level, ParseContent, Identify, SkipWS, NodesSpelled, NoDeclaration, TagAt, EndTagAt;
    ChildCases(s, depth, top, acc, cfg);
    var u := SkipWS(s);
    HeaderStands(u);
    ElementCases(u[1..], depth, cfg);
    var h := ParseHead(u[1..], cfg);
    if h.Head? {
      TagAtIs(s, h.closing, h.name, h.attrs, h.rest, cfg);
      EndTagIs(s, h.name, h.rest, cfg);
    }
    if h.Head? && h.closing == Open && h.rest != [] {
      var c := Level(h.rest, depth + 1, false, cfg);
      FinishCases(h, c);
      LevelCases(h.rest, depth + 1, false, cfg);
      if c.AtEndTag? {
        NoneSpelled(h.rest, depth + 1, cfg);
        ContentIsSpelled(h.rest, h.rest, depth + 1, false, [], cfg);
        NothingParsed(depth + 1, false);
        ContentIsParsed(h.rest, depth + 1, false, [], cfg);
        ParsedIsFit(c.children, depth + 1, false);
      }
    }
  }

  lemma ParsedIsFit(ns: seq<Node>, depth: nat, top: bool)
    requires ParsedNodes(ns, depth, top)
    ensures if top then DeclarationsFirst(ns) else NoDeclaration(ns)
  {
  }

  lemma {:induction false} ContentIsSpelled(start: string, s: string, depth: nat, top: bool, acc: seq<Node>, cfg: Config)
    requires 1 <= depth < MAX_DEPTH && NodesSpelled(acc, start, s, depth, cfg)
    ensures match ParseContent(s, depth, top, acc, cfg)
            case Failed(_) => true
            case Ended(ns) => exists u :: NodesSpelled(ns, start, u, depth, cfg) && SkipWS(u) == []
            case AtEndTag(ns, name, rest) => exists u :: NodesSpelled(ns, start, u, depth, cfg) && EndTagAt(u, name, rest, cfg)
    decreases |s|, 2
  {
    hide ParseOne, ParseContent, SkipWS, NodeSpelled, EndTagAt, Identify;
    ContentCases(s, depth, top, acc, cfg);
    if s == [] {
      NoBlanksLeft();
    } else {
      ChildCases(s, depth, top, acc, cfg);
      if SkipWS(s) != [] {
        if Identify(SkipWS(s)).ElementKind? {
          ElementIsSpelled(s, depth, top, acc, cfg);
        } else {
          LeafIsSpelled(s, depth, top, acc, cfg);
        }
      } else {
        OnlyBlanksLeft(s, depth, top, acc, cfg);
      }
      var r := ParseOne(s, depth, top, acc, cfg);
      if r.Got? {
        SpelledAppend(acc, r.node, start, s, r.rest, depth, cfg);
        ContentIsSpelled(start, r.rest, depth, top, acc + [r.node], cfg);
      } else if r.NoNode? {
        NoNodeMeansBlank(s, depth, top, acc, cfg);
      }
    }
  }

  lemma NoBlanksLeft()
    ensures SkipWS([]) == []
  {
  }

  lemma OnlyBlanksLeft(s: string, depth: nat, top: bool, acc: seq<Node>, cfg: Config)
    requires 1 <= depth < MAX_DEPTH && SkipWS(s) == []
    ensures ParseOne(s, depth, top, acc, cfg) == NoNode
  {
    hide SkipWS;
  }

  lemma NoNodeMeansBlank(s: string, depth: nat, top: bool, acc: seq<Node>, cfg: Config)
    requires 1 <= depth < MAX_DEPTH && ParseOne(s, depth, top, acc, cfg) == NoNode
    ensures SkipWS(s) == []
  {
    hide SkipWS, ParseOne, ParseElement, ParseHead, Level, FinishElement, Find, Value, ParseText, Identify;
    ChildCases(s, depth, top, acc, cfg);
    var u := SkipWS(s);
    if u != [] {
      var kind := Identify(u);
      if kind.TextKind? {
        TextCases(s, cfg);
      } else if kind.ElementKind? {
        ElementCases(u[1..], depth, cfg);
      }
    }
  }

  // ---------- what is spelled is parsed ----------

  /** A body between its opening and the first closing is what ParseBody reads. */
  lemma BetweenIsBody(u: string, open: string, raw: string, term: string, rest: string, make: string -> Node, error: XmlError)
    requires Between(u, open, raw, term, rest) && term != []
    ensures |open| <= |u| && StartsWith(u, open) && ParseBody(u[|open|..], term, make, error) == Got(make(Value(raw, BODY)), rest)
  {
    hide Value, Find;
    var body := raw + term + rest;
    Drop(open, body);
    Drop(raw, term + rest);
    Drop(raw + term, rest);
    Associates(raw, term, rest);
    assert StartsWith(body[|raw|..], term);
    forall i | 0 <= i < |raw|
      ensures !StartsWith(body[i..], term)
    {
      StartsWithMeans(body[i..], term);
    }
    FindIs(body, term, |raw|);
  }

  lemma HeaderIs(u: string)
    requires u != []
    ensures StartsWith(u, "<?") ==> Identify(u).DeclarationKind?
    ensures StartsWith(u, "<!--") ==> Identify(u).CommentKind?
    ensures StartsWith(u, "<![CDATA[") ==> Identify(u).CDataKind?
    ensures StartsWith(u, "<!") && !StartsWith(u, "<!--") && !StartsWith(u, "<![CDATA[") ==> Identify(u).UnknownKind?
    ensures u[0] == '<' && (|u| > 1 ==> u[1] != '?' && u[1] != '!') ==> Identify(u).ElementKind?
  {
    assert "<?"[1] == '?' && "<!--"[1] == '!' && "<!--"[2] == '-' && "<![CDATA["[1] == '!' && "<![CDATA["[2] == '[' && "<!"[1] == '!';
  }

  lemma UnknownStart(s: string, raw: string, rest: string)
    requires UnknownAt(s, raw, rest)
    ensures var u := SkipWS(s); Between(u, "<!", raw, ">", rest) && StartsWith(u, "<!") && !StartsWith(u, "<!--") && !StartsWith(u, "<![CDATA[")
  {
    hide SkipWS, Markup;
    var u := SkipWS(s);
    MarkupIs(s, "<!", raw, ">", rest);
    Associates(raw, ">", rest);
    StartsWithMeans(raw, "--");
    StartsWithMeans(raw, "[CDATA[");
    NotHeader(u, raw, rest, "--", "<!--");
    NotHeader(u, raw, rest, "[CDATA[", "<![CDATA[");
  }

  lemma TextParsed(s: string, raw: string, rest: string, cfg: Config)
    requires TextAt(s, raw, rest)
    ensures SkipWS(s) != [] && Identify(SkipWS(s)).TextKind? && s[0] != '<'
    ensures ParseText(s, cfg) == Got(Text(Value(raw, TextFlags(cfg)), false), rest)
  {
    hide SkipWS, Identify, Find, Value, AllBlank, OnlyBlanks;
    OnlyBlanksIs(raw);
    TextHeader(raw, rest);
    assert rest == ['<'] + rest[1..];
    FindChar(raw, '<', rest[1..]);
    Drop(raw, rest);
  }

  lemma LeafParsed(n: Node, s: string, rest: string, depth: nat, top: bool, acc: seq<Node>, cfg: Config)
    requires !n.Element? && NodeSpelled(n, s, rest, depth, cfg) && 1 <= depth < MAX_DEPTH && (n.Declaration? ==> DeclarationAllowed(top, acc))
    ensures ParseOne(s, depth, top, acc, cfg) == Got(n, rest)
  {
    hide ParseOne, ParseText, ParseBody, Identify, StartsWith, SkipWS, Value, DeclarationAllowed, Between, Markup, UnknownAt, TextAt, NodesSpelled, EndTagAt, TagAt;
    var u := SkipWS(s);
    ChildCases(s, depth, top, acc, cfg);
    if u != [] {
      HeaderIs(u);
    }
    match n {
      case Text(v, true) =>
        var raw :| Markup(s, "<![CDATA[", raw, "]]>", rest) && v == Value(raw, Flags(false, true, false));
        MarkupIs(s, "<![CDATA[", raw, "]]>", rest);
        BetweenIsBody(u, "<![CDATA[", raw, "]]>", rest, w => Text(w, true), ErrCData);
      case Text(v, false) =>
        var raw :| TextAt(s, raw, rest) && v == Value(raw, Flags(cfg.processEntities, true, cfg.collapse));
        TextParsed(s, raw, rest, cfg);
      case Comment(v) =>
        var raw :| Markup(s, "<!--", raw, "-->", rest) && v == Value(raw, Flags(false, true, false));
        MarkupIs(s, "<!--", raw, "-->", rest);
        BetweenIsBody(u, "<!--", raw, "-->", rest, w => Comment(w), ErrComment);
      case Declaration(v) =>
        var raw :| Markup(s, "<?", raw, "?>", rest) && v == Value(raw, Flags(false, true, false));
        MarkupIs(s, "<?", raw, "?>", rest);
        BetweenIsBody(u, "<?", raw, "?>", rest, w => Declaration(w), ErrDeclaration);
      case Unknown(v) =>
        var raw :| UnknownAt(s, raw, rest) && v == Value(raw, Flags(false, true, false));
        UnknownStart(s, raw, rest);
        BetweenIsBody(u, "<!", raw, ">", rest, w => Unknown(w), ErrUnknown);
    }
  }

  /** A tag begins with a name, a slash or a blank, and so its '<' does not begin other markup. */
  lemma TagIsElement(u: string, cfg: Config)
    requires u != [] && u[0] == '<' && ParseHead(u[1..], cfg).Head?
    ensures Identify(u).ElementKind?
  {
    hide ParseHead, ParseAttributes, Identify, StartsWith;
    HeadCases(u[1..], cfg);
    HeaderIs(u);
  }

  lemma TagParsed(s: string, depth: nat, top: bool, acc: seq<Node>, cfg: Config)
    requires 1 <= depth < MAX_DEPTH && SkipWS(s) != [] && SkipWS(s)[0] == '<' && ParseHead(SkipWS(s)[1..], cfg).Head?
    ensures ParseOne(s, depth, top, acc, cfg) == ParseElement(SkipWS(s)[1..], depth, cfg)
  {
    hide ParseOne, ParseElement, ParseHead, SkipWS, Identify, LeafStep;
    TagIsElement(SkipWS(s), cfg);
    ChildCases(s, depth, top, acc, cfg);
  }

  lemma EndTagParsed(s: string, name: string, rest: string, depth: nat, top: bool, acc: seq<Node>, cfg: Config)
    requires EndTagAt(s, name, rest, cfg) && 1 <= depth < MAX_DEPTH
    ensures ParseContent(s, depth, top, acc, cfg) == AtEndTag(acc, name, rest)
  {
    hide ParseOne, ParseElement, ParseHead, ParseContent, EndTagAt, SkipWS;
    EndTagIs(s, name, rest, cfg);
    TagParsed(s, depth, top, acc, cfg);
    ElementCases(SkipWS(s)[1..], depth, cfg);
    ContentCases(s, depth, top, acc, cfg);
  }

  lemma BlankParsed(s: string, depth: nat, top: bool, acc: seq<Node>, cfg: Config)
    requires SkipWS(s) == [] && 1 <= depth < MAX_DEPTH
    ensures ParseContent(s, depth, top, acc, cfg) == Ended(acc)
  {
    hide ParseOne, ParseContent, SkipWS;
    OnlyBlanksLeft(s, depth, top, acc, cfg);
    ContentCases(s, depth, top, acc, cfg);
  }

  lemma {:induction false} SpelledIsParsed(n: Node, s: string, rest: string, depth: nat, top: bool, acc: seq<Node>, cfg: Config)
    requires NodeSpelled(n, s, rest, depth, cfg) && 1 <= depth < MAX_DEPTH && (n.Declaration? ==> DeclarationAllowed(top, acc))
    ensures ParseOne(s, depth, top, acc, cfg) == Got(n, rest)
    decreases n, 1
  {
    hide ParseOne, ParseElement, ParseHead, ParseContent, FinishElement, Level, SkipWS, DeclarationAllowed, NodesSpelled, EndTagAt, TagAt, NoDeclaration;
    hide Markup, TextAt, UnknownAt, Value;
    if n.Element? {
      if n.children == [] && TagAt(s, Closed, n.name, n.attrs, rest, cfg) {
        TagAtIs(s, Closed, n.name, n.attrs, rest, cfg);
        TagParsed(s, depth, top, acc, cfg);
        ElementCases(SkipWS(s)[1..], depth, cfg);
      } else {
        var inner, u :| TagAt(s, Open, n.name, n.attrs, inner, cfg) && NodesSpelled(n.children, inner, u, depth + 1, cfg) && EndTagAt(u, n.name, rest, cfg);
        NoneFit(n.children);
        AllSpelledIsParsed(n.children, inner, u, depth + 1, false, [], cfg);
        assert [] + n.children == n.children;
        EndTagParsed(u, n.name, rest, depth + 1, false, n.children, cfg);
        OpenParsed(n, s, inner, rest, depth, top, acc, cfg);
      }
    } else {
      LeafParsed(n, s, rest, depth, top, acc, cfg);
    }
  }

  lemma OpenParsed(n: Node, s: string, inner: string, rest: string, depth: nat, top: bool, acc: seq<Node>, cfg: Config)
    requires n.Element? && TagAt(s, Open, n.name, n.attrs, inner, cfg) && 1 <= depth && depth + 1 < MAX_DEPTH
    requires ParseContent(inner, depth + 1, false, [], cfg) == AtEndTag(n.children, n.name, rest)
    ensures ParseOne(s, depth, top, acc, cfg) == Got(n, rest)
  {
    hide ParseOne, ParseElement, ParseHead, ParseContent, FinishElement, Level, SkipWS, TagAt;
    TagAtIs(s, Open, n.name, n.attrs, inner, cfg);
    TagParsed(s, depth, top, acc, cfg);
    ElementCases(SkipWS(s)[1..], depth, cfg);
    ContentNotEmpty(inner, depth + 1, cfg);
    LevelCases(inner, depth + 1, false, cfg);
    FinishCases(ParseHead(SkipWS(s)[1..], cfg), Level(inner, depth + 1, false, cfg));
  }

  lemma NoneFit(ns: seq<Node>)
    requires NoDeclaration(ns)
    ensures DeclarationsFit(false, [], ns)
  {
  }

  lemma {:induction false} AllSpelledIsParsed(ns: seq<Node>, s: string, rest: string, depth: nat, top: bool, acc: seq<Node>, cfg: Config)
    requires NodesSpelled(ns, s, rest, depth, cfg) && 1 <= depth < MAX_DEPTH && DeclarationsFit(top, acc, ns)
    ensures ParseContent(s, depth, top, acc, cfg) == ParseContent(rest, depth, top, acc + ns, cfg)
    decreases ns, 0
  {
    hide ParseOne, ParseContent, NodeSpelled, DeclarationsFit, DeclarationAllowed;
    if ns == [] {
      assert acc + ns == acc;
    } else {
      var mid :| NodeSpelled(ns[0], s, mid, depth, cfg) && NodesSpelled(ns[1..], mid, rest, depth, cfg);
      DeclarationsStep(top, acc, ns, ns[0]);
      SpelledIsParsed(ns[0], s, mid, depth, top, acc, cfg);
      ContentCases(s, depth, top, acc, cfg);
      if s == [] {
        ParseOneOfNothing(depth, top, acc, cfg);
      }
      AllSpelledIsParsed(ns[1..], mid, rest, depth, top, acc + [ns[0]], cfg);
      assert acc + [ns[0]] + ns[1..] == acc + ns;
    }
  }

  // ---------- both ways ----------

  /** A text spells a node in one way at most. */
  lemma RestIsUnique(n: Node, s: string, rest: string, other: string, depth: nat, cfg: Config)
    requires NodeSpelled(n, s, rest, depth, cfg) && NodeSpelled(n, s, other, depth, cfg) && 1 <= depth < MAX_DEPTH
    ensures rest == other
  {
    hide ParseOne, NodeSpelled;
    SpelledIsParsed(n, s, rest, depth, true, [], cfg);
    SpelledIsParsed(n, s, other, depth, true, [], cfg);
  }

  ghost predicate BlankAfter(ns: seq<Node>, t: string, cfg: Config) {
    DeclarationsFirst(ns) && exists u :: NodesSpelled(ns, t, u, 1, cfg) && OnlyBlanks(u)
  }

  ghost predicate EndTagAfter(ns: seq<Node>, name: string, rest: string, t: string, cfg: Config) {
    DeclarationsFirst(ns) && exists u :: NodesSpelled(ns, t, u, 1, cfg) && EndTagAt(u, name, rest, cfg)
  }

  /** What the parsed nodes of a document leave unread. */
  lemma TopIsSpelled(t: string, cfg: Config) returns (c: Content)
    ensures c == ParseContent(t, 1, true, [], cfg)
    ensures c.Ended? ==> BlankAfter(c.children, t, cfg)
    ensures c.AtEndTag? ==> EndTagAfter(c.children, c.name, c.rest, t, cfg)
  {
    hide ParseContent, SkipWS, NodesSpelled, EndTagAt, DeclarationsFirst, ParsedNodes, OnlyBlanks;
    NoneSpelled(t, 1, cfg);
    ContentIsSpelled(t, t, 1, true, [], cfg);
    forall u | SkipWS(u) == []
      ensures OnlyBlanks(u)
    {
      BlankRun(u);
    }
    NothingParsed(1, true);
    ContentIsParsed(t, 1, true, [], cfg);
    c := ParseContent(t, 1, true, [], cfg);
    if !c.Failed? {
      ParsedIsFit(c.children, 1, true);
    }
  }

  lemma BlankRun(u: string)
    ensures SkipWS(u) == [] <==> OnlyBlanks(u)
  {
    hide SkipWS;
    PastBlanksIs(u, []);
  }

  lemma BlankAfterIsParsed(t: string, ns: seq<Node>, cfg: Config)
    requires BlankAfter(ns, t, cfg)
    ensures ParseContent(t, 1, true, [], cfg) == Ended(ns)
  {
    hide ParseContent, SkipWS, NodesSpelled, OnlyBlanks;
    var u :| NodesSpelled(ns, t, u, 1, cfg) && OnlyBlanks(u);
    BlankRun(u);
    FirstFit(ns);
    assert [] + ns == ns;
    AllSpelledIsParsed(ns, t, u, 1, true, [], cfg);
    BlankParsed(u, 1, true, ns, cfg);
  }

  lemma EndTagAfterIsParsed(t: string, ns: seq<Node>, name: string, rest: string, cfg: Config)
    requires EndTagAfter(ns, name, rest, t, cfg)
    ensures ParseContent(t, 1, true, [], cfg) == AtEndTag(ns, name, rest)
  {
    hide ParseContent, EndTagAt, NodesSpelled;
    var u :| NodesSpelled(ns, t, u, 1, cfg) && EndTagAt(u, name, rest, cfg);
    FirstFit(ns);
    assert [] + ns == ns;
    AllSpelledIsParsed(ns, t, u, 1, true, [], cfg);
    EndTagParsed(u, name, rest, 1, true, ns, cfg);
  }

  lemma FirstFit(ns: seq<Node>)
    requires DeclarationsFirst(ns)
    ensures DeclarationsFit(true, [], ns)
  {
  }

  /** Behind blanks `s` has the byte order mark or not, and then `t`. */
  predicate Begins(s: string, bom: bool, t: string) {
    var mark := ['\U{EF}', '\U{BB}', '\U{BF}'];
    PastBlanks(s, if bom then mark + t else t) && (!bom ==> !(mark <= t))
  }

  lemma BeginsIs(s: string, bom: bool, t: string)
    ensures Begins(s, bom, t) <==> t == SkipBom(SkipWS(s)) && bom == StartsWith(SkipWS(s), BOM)
  {
    hide SkipWS, PastBlanks, StartsWith;
    var u := SkipWS(s);
    StartsWithMeans(u, BOM);
    PastBlanksIs(s, BOM + t);
    PastBlanksIs(s, t);
    assert BOM <= u ==> u == BOM + u[3..];
    Drop(BOM, t);
  }

  /** Tags match, and nothing else is asked for: whatever the input, parsing yields a document exactly if its text, behind blanks
      and byte order mark, is not empty and spells the children one after the other, each element self-closed or closed by an end
      tag of its own name, and what then remains is blank or begins with an end tag that nothing opened. */
  lemma TagsMatch(s: string, bom: bool, ns: seq<Node>, cfg: Config)
    ensures (ParseDocument(s, cfg) == Doc(bom, ns)) <==>
              exists t :: Begins(s, bom, t) && t != [] && DocumentSpelled(ns, t, cfg)
  {
    hide ParseContent, SkipWS, SkipBom, NodesSpelled, EndTagAt, DeclarationsFirst, StartsWith, Begins, OnlyBlanks;
    var t := SkipBom(SkipWS(s));
    BeginsIs(s, bom, t);
    var c := TopIsSpelled(t, cfg);
    if ParseDocument(s, cfg) == Doc(bom, ns) {
      assert Begins(s, bom, t) && DocumentSpelled(ns, t, cfg);
    }
    if exists t :: Begins(s, bom, t) && t != [] && DocumentSpelled(ns, t, cfg) {
      var t' :| Begins(s, bom, t') && t' != [] && DocumentSpelled(ns, t', cfg);
      BeginsIs(s, bom, t');
      SpelledDocument(t, ns, cfg);
    }
  }

  ghost predicate DocumentSpelled(ns: seq<Node>, t: string, cfg: Config) {
    BlankAfter(ns, t, cfg) || exists name, rest :: EndTagAfter(ns, name, rest, t, cfg)
  }

  lemma SpelledDocument(t: string, ns: seq<Node>, cfg: Config)
    requires DocumentSpelled(ns, t, cfg)
    ensures var c := ParseContent(t, 1, true, [], cfg); !c.Failed? && c.children == ns
  {
    hide ParseContent, SkipWS, NodesSpelled, EndTagAt, DeclarationsFirst, OnlyBlanks;
    if BlankAfter(ns, t, cfg) {
      BlankAfterIsParsed(t, ns, cfg);
    } else {
      var name, rest :| EndTagAfter(ns, name, rest, t, cfg);
      EndTagAfterIsParsed(t, ns, name, rest, cfg);
    }
  }

  /** The text is one of nodes and blanks. */
  ghost predicate SpelledToTheEnd(t: string, cfg: Config) {
    exists ns :: BlankAfter(ns, t, cfg)
  }

  /** The text is one of nodes up to an end tag that none of them opened. */
  ghost predicate SpelledToAnEndTag(t: string, cfg: Config) {
    exists ns, name, rest :: EndTagAfter(ns, name, rest, t, cfg)
  }

  /** The nodes have been read up to the end of the text exactly if it is spelled by nodes and blanks; they have been cut short,
      without an error, exactly if an end tag stands behind them. */
  lemma WholeTextIsRead(t: string, cfg: Config)
    ensures ParseContent(t, 1, true, [], cfg).Ended? <==> SpelledToTheEnd(t, cfg)
    ensures ParseContent(t, 1, true, [], cfg).AtEndTag? <==> SpelledToAnEndTag(t, cfg)
  {
    hide ParseContent, SkipWS, NodesSpelled, EndTagAt, DeclarationsFirst;
    var c := TopIsSpelled(t, cfg);
    if SpelledToTheEnd(t, cfg) {
      var ns :| BlankAfter(ns, t, cfg);
      BlankAfterIsParsed(t, ns, cfg);
    }
    if SpelledToAnEndTag(t, cfg) {
      var ns, name, rest :| EndTagAfter(ns, name, rest, t, cfg);
      EndTagAfterIsParsed(t, ns, name, rest, cfg);
    }
  }

  /** An end tag that nothing opened: the document is empty, without an error, and the text behind the tag is ignored. */
  lemma EndTagExample(cfg: Config)
    ensures ParseDocument("</b>x", cfg) == Doc(false, [])
  {
    hide ParseContent, SkipWS;
    var name: string, tail: string, none: string := "b", "x", [];
    assert ValidName(name);
    assert none + CloseTag(name, tail) == "</b>x";
    EndTagEnds(none, name, tail, 1, true, [], cfg);
    SkipNothing("</b>x");
    assert BOM[0] != '<';
  }

  // ---------- blanks ----------

  /** Space, tab, line feed, vertical tab, form feed and carriage return, in any number and order, are skipped in front of markup, in
      front of a document, and in front of and behind the attributes of a tag. */
  lemma RunsAreSkipped(w: string, t: string, depth: nat, top: bool, acc: seq<Node>, attrs: seq<Attr>, cfg: Config)
    requires forall i :: 0 <= i < |w| ==> w[i] as int in {9, 10, 11, 12, 13, 32}
    ensures t != [] && t[0] == '<' && 1 <= depth < MAX_DEPTH ==> ParseContent(w + t, depth, top, acc, cfg) == ParseContent(t, depth, top, acc, cfg)
    ensures ParseAttributes(w + t, attrs, cfg) == ParseAttributes(t, attrs, cfg)
    ensures ParseDocument(w + t, cfg) == ParseDocument(t, cfg)
  {
    hide ParseContent, SkipWS, ParseAttributes, ParseAttribute, AllBlank, IsWhiteSpace, IsNameStartChar, Names, SkipBom, StartsWith;
    BlankPart(w);
    SkipOver(w, t);
    AttributesCases(w + t, attrs, cfg);
    AttributesCases(t, attrs, cfg);
    if t != [] && t[0] == '<' && 1 <= depth < MAX_DEPTH {
      NoBlank(t);
      BlanksIgnored(w, t, depth, top, acc, cfg);
    }
  }

  lemma NoBlank(t: string)
    requires t != [] && t[0] == '<'
    ensures SkipWS(t) == t
  {
    BlankIs(t[0]);
    SkipNothing(t);
  }

  /** No other character is: a text begins with it. */
  lemma OthersAreText(c: char, t: string, depth: nat, top: bool, acc: seq<Node>, cfg: Config)
    requires c as int !in {9, 10, 11, 12, 13, 32} && c != '<' && 1 <= depth < MAX_DEPTH
    ensures var r := ParseOne([c] + t, depth, top, acc, cfg);
            && (r.Fail? || r.Got?)
            && (r.Got? ==> exists raw :: TextAt([c] + t, [c] + raw, r.rest) && r.node == Text(Value([c] + raw, TextFlags(cfg)), false))
  {
    hide ParseOne, SkipWS, Value, ParseText, Find;
    var s := [c] + t;
    BlankIs(c);
    SkipNothing(s);
    StartsNoMarkup(s);
    ChildCases(s, depth, top, acc, cfg);
    TextCases(s, cfg);
    var found := Find(s, "<");
    if found.Some? && s[found.value + 1..] != [] {
      var k := found.value;
      TextStands(s, k);
      assert s[..k] == [c] + s[1..k];
      assert TextAt(s, [c] + s[1..k], s[k..]);
    }
  }

  lemma StartsNoMarkup(s: string)
    requires s != [] && s[0] != '<'
    ensures Identify(s).TextKind?
  {
    assert "<?"[0] == '<' && "<!--"[0] == '<' && "<![CDATA["[0] == '<' && "<!"[0] == '<' && "<"[0] == '<';
  }

  // ---------- how deep ----------

  /** n elements, each in the one before. */
  function Nested(n: nat, tail: string): string {
    if n == 0 then tail else "<a>" + Nested(n - 1, "</a>" + tail)
  }

  function Deep(n: nat): Node {
    Element("a", [], if n <= 1 then [] else [Deep(n - 1)])
  }

  lemma {:induction false} NestedIs(n: nat, tail: string, depth: nat, top: bool, acc: seq<Node>, cfg: Config)
    requires 1 <= n && 1 <= depth < MAX_DEPTH
    ensures ParseOne(Nested(n, tail), depth, top, acc, cfg) == if depth + n < MAX_DEPTH then Got(Deep(n), tail) else Fail(ErrDepth)
    decreases n
  {
    hide ParseOne, ParseElement, ParseHead, ParseContent, Level, FinishElement, SkipWS, Identify, Nested;
    var name: string, close := "a", "</a>" + tail;
    var inner := Nested(n - 1, close);
    NestedHead(n, tail, inner, depth, top, acc, cfg);
    var h := ParseHead(name + (">" + inner), cfg);
    LevelCases(inner, depth + 1, false, cfg);
    FinishCases(h, Level(inner, depth + 1, false, cfg));
    if depth + 1 < MAX_DEPTH {
      if n == 1 {
        NestedEnd(tail, depth + 1, [], cfg);
        NestedNone(close);
      } else {
        NestedIs(n - 1, close, depth + 1, false, [], cfg);
        ContentCases(inner, depth + 1, false, [], cfg);
        NestedEnd(tail, depth + 1, [Deep(n - 1)], cfg);
        assert [] + [Deep(n - 1)] == [Deep(n - 1)];
      }
    }
  }

  lemma NestedNone(tail: string)
    ensures Nested(0, tail) == tail
  {
  }

  lemma {:induction false} NestedStarts(n: nat, tail: string)
    ensures tail != [] ==> Nested(n, tail) != []
    ensures n > 0 ==> Nested(n, tail) == "<" + ("a" + (">" + Nested(n - 1, "</a>" + tail)))
  {
  }

  lemma NestedHead(n: nat, tail: string, inner: string, depth: nat, top: bool, acc: seq<Node>, cfg: Config)
    requires 1 <= n && 1 <= depth < MAX_DEPTH && inner == Nested(n - 1, "</a>" + tail)
    ensures inner != [] && Nested(n, tail) != [] && ParseHead("a" + (">" + inner), cfg) == Head(Open, "a", [], inner)
    ensures ParseOne(Nested(n, tail), depth, top, acc, cfg) == FinishElement("a", [], Level(inner, depth + 1, false, cfg))
  {
    hide ParseOne, ParseElement, ParseHead, Level, FinishElement, SkipWS, Identify, Nested;
    var name: string, none: seq<Attr> := "a", [];
    NestedStarts(n, tail);
    NestedStarts(n - 1, "</a>" + tail);
    assert ValidName(name) && NormalAttrs(none, cfg);
    EmitNoAttrs(">" + inner, cfg);
    HeadRoundTrip(name, none, ">" + inner, cfg);
    Drop(">", inner);
    var t := name + (">" + inner);
    assert t[0] == 'a';
    ElementHeader(t);
    ElementIs("<" + t, t, depth, top, acc, cfg);
    ElementCases(t, depth, cfg);
  }

  lemma NestedEnd(tail: string, depth: nat, acc: seq<Node>, cfg: Config)
    requires 1 <= depth < MAX_DEPTH
    ensures ParseContent("</a>" + tail, depth, false, acc, cfg) == AtEndTag(acc, "a", tail)
  {
    hide ParseContent, SkipWS;
    var name: string, none: string := "a", [];
    assert ValidName(name);
    assert none + CloseTag(name, tail) == "</a>" + tail;
    EndTagEnds(none, name, tail, depth, false, acc, cfg);
  }

  lemma NoBom(s: string)
    requires s != [] && s[0] == '<'
    ensures SkipBom(s) == s && !StartsWith(s, BOM)
  {
    assert BOM[0] != '<';
  }

  /** A document that begins with markup is what its top level is. */
  lemma DocumentCases(s: string, cfg: Config)
    requires s != [] && s[0] == '<'
    ensures match ParseContent(s, 1, true, [], cfg)
            case Failed(e) => ParseDocument(s, cfg) == DocFail(e)
            case Ended(children) => ParseDocument(s, cfg) == Doc(false, children)
            case AtEndTag(children, _, _) => ParseDocument(s, cfg) == Doc(false, children)
  {
    hide ParseContent, SkipWS, SkipBom, StartsWith;
    SkipNothing(s);
    NoBom(s);
  }

  /** Elements may be nested 98 deep, and no deeper. */
  lemma DepthExactly(n: nat, cfg: Config)
    requires n >= 1
    ensures ParseDocument(Nested(n, ""), cfg) == if n <= 98 then Doc(false, [Deep(n)]) else DocFail(ErrDepth)
  {
    hide ParseOne, ParseContent, ParseDocument, Nested;
    var s, none: string := Nested(n, ""), [];
    NestedIs(n, none, 1, true, [], cfg);
    NestedStarts(n, none);
    ContentCases(s, 1, true, [], cfg);
    ContentCases(none, 1, true, [] + [Deep(n)], cfg);
    DocumentCases(s, cfg);
    assert [] + [Deep(n)] == [Deep(n)];
  }
}
