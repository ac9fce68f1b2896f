/** Printing followed by parsing gives back the document, but for the layout that pretty printing writes next to its texts. */
module RoundTrip {
  import opened Texts
  import opened XmlUtil
  import opened XmlText
  import opened XmlSyntax

  // ---------- which documents ----------

  predicate ValidName(s: string) {
    s != [] && IsNameStartChar(s[0]) && forall i :: 0 <= i < |s| ==> IsNameChar(s[i])
  }

  /** A string a C string can hold and line end processing leaves alone. */
  predicate Plain(v: string) {
    NulFree(v) && CrFree(v)
  }

  predicate AllBlank(v: string) {
    forall i :: 0 <= i < |v| ==> IsWhiteSpace(v[i])
  }

  /** Attribute values; without entity processing a quote cannot be written. */
  predicate NormalValue(v: string, cfg: Config) {
    Plain(v) && (cfg.processEntities || Without(v, '"'))
  }

  predicate NormalText(v: string, cfg: Config) {
    && Plain(v) && !AllBlank(v) && (cfg.processEntities || Without(v, '<'))
    && (cfg.collapse ==> Collapse(v) == v)
  }

  predicate DistinctNames(attrs: seq<Attr>) {
    forall i, j :: 0 <= i < j < |attrs| ==> attrs[i].name != attrs[j].name
  }

  predicate NormalAttrs(attrs: seq<Attr>, cfg: Config) {
    DistinctNames(attrs) && forall i :: 0 <= i < |attrs| ==> ValidName(attrs[i].name) && NormalValue(attrs[i].value, cfg)
  }

  predicate PlainText(n: Node) {
    n.Text? && !n.cdata
  }

  predicate NoAdjacentText(ns: seq<Node>) {
    forall i :: 0 <= i < |ns| - 1 ==> !(PlainText(ns[i]) && PlainText(ns[i + 1]))
  }

  predicate NoDeclaration(ns: seq<Node>) {
    forall i :: 0 <= i < |ns| ==> !ns[i].Declaration?
  }

  /** A node in a sibling list that is parsed at `depth`. An element with children needs one level more. */
  predicate NormalNode(n: Node, depth: nat, cfg: Config)
    decreases n
  {
    match n
    case Element(name, attrs, children) =>
      && ValidName(name) && NormalAttrs(attrs, cfg) && NoDeclaration(children) && NoAdjacentText(children)
      && (children != [] ==> depth + 1 < MAX_DEPTH)
      && forall i :: 0 <= i < |children| ==> NormalNode(children[i], depth + 1, cfg)
    case Text(v, cdata) => if cdata then Plain(v) && Find(v, "]]>").None? else NormalText(v, cfg)
    case Comment(v) => Plain(v) && Find(v, "-->").None?
    case Declaration(v) => Plain(v) && Find(v, "?>").None?
    case Unknown(v) => Plain(v) && Find(v, ">").None? && !StartsWith(v, "--") && !StartsWith(v, "[CDATA[")
  }

  predicate NormalNodes(ns: seq<Node>, depth: nat, cfg: Config) {
    NoAdjacentText(ns) && forall i :: 0 <= i < |ns| ==> NormalNode(ns[i], depth, cfg)
  }

  /** Documents that survive: declarations come first, the last node is no plain text, and a text at the very front
      neither starts with a blank nor looks like a byte order mark. */
  predicate NormalDocument(bom: bool, ns: seq<Node>, cfg: Config) {
    && ns != [] && NormalNodes(ns, 1, cfg) && !PlainText(ns[|ns| - 1])
    && (forall i, j :: 0 <= i < j < |ns| && ns[j].Declaration? ==> ns[i].Declaration?)
    && (!bom && PlainText(ns[0]) ==> !IsWhiteSpace(ns[0].value[0]) && !StartsWith(ns[0].value, BOM))
  }

  // ---------- texts ----------

  lemma Drop(a: string, b: string)
    ensures (a + b)[|a|..] == b && (a + b)[..|a|] == a
  {
  }

  lemma {:induction false} CollapseFlagIdle(raw: string, f: Flags, p: nat, out: string)
    requires |out| <= p <= |raw|
    ensures DecodeFrom(raw, f, p, out) == DecodeFrom(raw, f.(collapse := false), p, out)
    decreases |raw| - p
  {
    hide DecodeStep, DecodeFrom;
    if p < |raw| {
      var r := DecodeStep(raw[p..], f, raw[|out|]);
      StepIdle(raw[p..], f, raw[|out|]);
      DecodeUnfold(raw, f, p, out);
      DecodeUnfold(raw, f.(collapse := false), p, out);
      CollapseFlagIdle(raw, f, p + r.1, out + r.0);
    } else {
      AllRead(raw, f, out);
      AllRead(raw, f.(collapse := false), out);
    }
  }

  lemma AllRead(raw: string, f: Flags, out: string)
    requires |out| <= |raw|
    ensures DecodeFrom(raw, f, |raw|, out) == out
  {
  }

  lemma StepIdle(s: string, f: Flags, stale: char)
    requires s != []
    ensures DecodeStep(s, f, stale) == DecodeStep(s, f.(collapse := false), stale)
  {
    hide EntityAt, GetCharacterRef;
  }

  /** What the parser reads for a printed string is that string, collapsed if need be. */
  lemma ValueOfEscaped(v: string, restricted: bool, collapse: bool, cfg: Config)
    requires Plain(v)
    ensures Value(Escaped(v, restricted, cfg), Flags(cfg.processEntities, true, collapse)) == if collapse then Collapse(v) else v
  {
    hide Collapse, DecodeFrom, Cut, Escape;
    if cfg.processEntities {
      DecodeUndoesEscape(v, restricted);
    } else {
      DecodeUndoesNothing(v);
    }
    CollapseFlagIdle(Escaped(v, restricted, cfg), Flags(cfg.processEntities, true, collapse), 0, []);
  }

  lemma ValueOfBody(v: string)
    requires Plain(v)
    ensures Value(v, BODY) == v
  {
    hide Value;
    DecodeUndoesNothing(v);
  }

  lemma EscapedWithout(v: string, restricted: bool, cfg: Config, c: char)
    requires c == '<' || (c == '"' && !restricted)
    requires cfg.processEntities || Without(v, c)
    ensures Without(Escaped(v, restricted, cfg), c)
  {
    if cfg.processEntities {
      EscapeHides(v, restricted, c);
    }
  }

  lemma {:induction false} EscapeNotBlank(v: string, restricted: bool)
    requires !AllBlank(v)
    ensures !AllBlank(Escape(v, restricted))
  {
    var e := EscapeChar(v[0], restricted);
    assert Escape(v, restricted)[0] == e[0];
    if IsWhiteSpace(v[0]) {
      assert e == [v[0]];
      assert !AllBlank(v[1..]);
      EscapeNotBlank(v[1..], restricted);
      var r := Escape(v[1..], restricted);
      var k :| 0 <= k < |r| && !IsWhiteSpace(r[k]);
      assert Escape(v, restricted)[k + 1] == r[k];
    }
  }

  /** Finding a terminator that stands directly behind a text free of it. */
  lemma FindChar(v: string, c: char, tail: string)
    requires Without(v, c)
    ensures Find(v + ([c] + tail), [c]) == Some(|v|)
  {
    var s := v + ([c] + tail);
    assert s[|v|..][0] == c;
    forall i | 0 <= i < |v|
      ensures !StartsWith(s[i..], [c])
    {
      assert s[i..][0] == v[i];
    }
    FindIs(s, [c], |v|);
  }

  predicate Borderless(t: string) {
    forall k :: 0 < k < |t| ==> t[k..] != t[..|t| - k]
  }

  lemma {:induction false} FindNothing(v: string, t: string, i: nat)
    requires Find(v, t).None? && i <= |v|
    ensures !StartsWith(v[i..], t)
  {
    if i == 0 {
      assert v[0..] == v;
    } else {
      FindNothing(v[1..], t, i - 1);
      assert v[1..][i - 1..] == v[i..];
    }
  }

  lemma FindTerminator(v: string, t: string, tail: string)
    requires Find(v, t).None? && t != [] && Borderless(t)
    ensures Find(v + (t + tail), t) == Some(|v|)
  {
    var s := v + (t + tail);
    Drop(v, t + tail);
    assert StartsWith(s[|v|..], t);
    forall i | 0 <= i < |v|
      ensures !StartsWith(s[i..], t)
    {
      FindNothing(v, t, i);
      if StartsWith(s[i..], t) {
        NoOverlap(v, t, tail, i);
      }
    }
    FindIs(s, t, |v|);
  }

  lemma NoOverlap(v: string, t: string, tail: string, i: nat)
    requires i < |v| && t != [] && Borderless(t) && !StartsWith(v[i..], t)
    ensures !StartsWith((v + (t + tail))[i..], t)
  {
    var s := v + (t + tail);
    var k := |v| - i;
    if k >= |t| {
      var j :| 0 <= j < |t| && v[i..][j] != t[j];
      assert s[i..][j] == v[i..][j];
    } else {
      assert t[k..] != t[..|t| - k];
      var j :| 0 <= j < |t| - k && t[k + j] != t[j];
      assert s[i..][k + j] == t[j];
    }
  }

  lemma Terminators()
    ensures Borderless("-->") && Borderless("]]>") && Borderless("?>") && Borderless(">")
  {
    BorderlessThree('-', '-', '>');
    BorderlessThree(']', ']', '>');
    assert "?>"[1..][0] == '>' && "?>"[..1][0] == '?';
  }

  lemma BorderlessThree(a: char, b: char, c: char)
    requires a != c && b != c
    ensures Borderless([a, b, c])
  {
    var t := [a, b, c];
    assert t[2..][0] == c && t[..1][0] == a && t[1..][1] == c && t[..2][1] == b;
  }

  lemma BodyRoundTrip(v: string, term: string, tail: string, make: string -> Node, error: XmlError)
    requires Plain(v) && Find(v, term).None? && term != [] && Borderless(term)
    ensures ParseBody(v + (term + tail), term, make, error) == Got(make(v), tail)
  {
    hide Find, Value, Borderless;
    FindTerminator(v, term, tail);
    ValueOfBody(v);
    Drop(v, term + tail);
    Drop(term, tail);
    assert (v + (term + tail))[|v| + |term|..] == (v + (term + tail))[|v|..][|term|..];
  }

  // ---------- attributes and tags ----------

  lemma SkipNothing(s: string)
    requires s == [] || !IsWhiteSpace(s[0])
    ensures SkipWS(s) == s
  {
  }

  lemma NameIs(name: string, tail: string)
    requires ValidName(name) && (tail == [] || !IsNameChar(tail[0]))
    ensures NameLength(name + tail) == |name|
  {
    var s := name + tail;
    assert forall i :: 0 <= i < |name| ==> s[i] == name[i];
    NameLengthIs(s, |name|);
  }

  lemma AttributeIs(s: string, k: nat, eq: string, quote: string, inner: string, n: nat, cfg: Config)
    requires k == NameLength(s) && 0 < k < |s| && eq == SkipWS(s[k..]) && eq != [] && eq[0] == '='
    requires quote == SkipWS(eq[1..]) && quote != [] && quote[0] == '"' && inner == quote[1..] && Find(inner, ['"']) == Some(n)
    ensures n < |inner| && ParseAttribute(s, cfg) == AttrOk(Attr(s[..k], Value(inner[..n], AttrFlags(cfg))), inner[n + 1..])
  {
    hide NameLength, SkipWS, Find, Value;
  }

  /** A printed attribute value between its quotes. */
  lemma QuotedValue(v: string, tail: string, cfg: Config)
    requires NormalValue(v, cfg)
    ensures var e := Escaped(v, false, cfg); var inner := e + ("\"" + tail);
            && Find(inner, ['"']) == Some(|e|) && inner[..|e|] == e && inner[|e| + 1..] == tail
            && Value(e, AttrFlags(cfg)) == v
  {
    hide Find, Value, Escaped;
    var e := Escaped(v, false, cfg);
    EscapedWithout(v, false, cfg, '"');
    assert "\"" + tail == ['"'] + tail;
    FindChar(e, '"', tail);
    ValueOfEscaped(v, false, false, cfg);
    Drop(e, "\"" + tail);
    Drop("\"", tail);
    DropTwice(e + ("\"" + tail), |e|, 1);
  }

  lemma DropTwice(s: string, i: nat, j: nat)
    requires i + j <= |s|
    ensures s[i..][j..] == s[i + j..]
  {
  }

  lemma AttributeRoundTrip(a: Attr, tail: string, cfg: Config)
    requires ValidName(a.name) && NormalValue(a.value, cfg)
    ensures ParseAttribute(a.name + ("=\"" + (Escaped(a.value, false, cfg) + ("\"" + tail))), cfg) == AttrOk(a, tail)
  {
    hide NameLength, SkipWS, Find, Value, Escaped, ParseAttribute, NormalValue;
    var e := Escaped(a.value, false, cfg);
    var inner := e + ("\"" + tail);
    var eq, quote := Quoting(inner);
    NameIs(a.name, eq);
    Drop(a.name, eq);
    QuotedValue(a.value, tail, cfg);
    AttributeIs(a.name + eq, |a.name|, eq, quote, inner, |e|, cfg);
  }

  lemma Quoting(inner: string) returns (eq: string, quote: string)
    ensures eq == "=\"" + inner && SkipWS(eq) == eq && eq != [] && eq[0] == '=' && eq[1..] == quote
    ensures SkipWS(quote) == quote && quote != [] && quote[0] == '"' && quote[1..] == inner
  {
    hide SkipWS;
    quote := "\"" + inner;
    eq := "=" + quote;
    Drop("=", quote);
    Drop("\"", inner);
    SkipNothing(eq);
    SkipNothing(quote);
  }

  /** Names already read do not clash with the names to come. */
  predicate Fresh(acc: seq<Attr>, attrs: seq<Attr>) {
    forall i, j :: 0 <= i < |acc| && 0 <= j < |attrs| ==> acc[i].name != attrs[j].name
  }

  lemma FreshStep(acc: seq<Attr>, attrs: seq<Attr>, cfg: Config)
    requires attrs != [] && Fresh(acc, attrs) && NormalAttrs(attrs, cfg)
    ensures attrs[0].name !in Names(acc) && Fresh(acc + [attrs[0]], attrs[1..])
  {
  }

  /** Reading one more attribute behind a single blank. */
  lemma AttributesStep(s: string, body: string, a: Attr, rest: string, acc: seq<Attr>, cfg: Config)
    requires s == " " + body && body != [] && IsNameStartChar(body[0])
    requires ParseAttribute(body, cfg) == AttrOk(a, rest) && a.name !in Names(acc)
    ensures ParseAttributes(s, acc, cfg) == ParseAttributes(rest, acc + [a], cfg)
  {
    hide ParseAttribute, Names;
    NameStartNotBlank(body[0]);
    SkipNothing(body);
    assert s[1..] == body && SkipWS(s) == body;
    hide SkipWS;
  }

  lemma EmitAttrsStep(attrs: seq<Attr>, tail: string, cfg: Config)
    requires attrs != []
    ensures EmitAttrs(attrs, tail, cfg) ==
              " " + (attrs[0].name + ("=\"" + (Escaped(attrs[0].value, false, cfg) + ("\"" + EmitAttrs(attrs[1..], tail, cfg)))))
  {
  }

  lemma NormalAttrsStep(attrs: seq<Attr>, cfg: Config)
    requires attrs != [] && NormalAttrs(attrs, cfg)
    ensures ValidName(attrs[0].name) && NormalValue(attrs[0].value, cfg) && NormalAttrs(attrs[1..], cfg)
  {
    hide ValidName, NormalValue;
  }

  lemma {:induction false} AttrsRoundTrip(attrs: seq<Attr>, acc: seq<Attr>, tail: string, cfg: Config)
    requires NormalAttrs(attrs, cfg) && Fresh(acc, attrs)
    ensures ParseAttributes(EmitAttrs(attrs, tail, cfg), acc, cfg) == ParseAttributes(tail, acc + attrs, cfg)
  {
    hide ParseAttributes, ParseAttribute, Escaped, EmitAttrs, Names, NormalAttrs, NormalValue, Fresh;
    if attrs == [] {
      EmitNoAttrs(tail, cfg);
      assert acc + attrs == acc;
    } else {
      var a, rest := attrs[0], EmitAttrs(attrs[1..], tail, cfg);
      NormalAttrsStep(attrs, cfg);
      FreshStep(acc, attrs, cfg);
      EmitAttrsStep(attrs, tail, cfg);
      AttributeRoundTrip(a, rest, cfg);
      var body := a.name + ("=\"" + (Escaped(a.value, false, cfg) + ("\"" + rest)));
      assert body[0] == a.name[0];
      AttributesStep(" " + body, body, a, rest, acc, cfg);
      AttrsRoundTrip(attrs[1..], acc + [a], tail, cfg);
      assert acc + [a] + attrs[1..] == acc + attrs;
    }
  }

  lemma EmitNoAttrs(tail: string, cfg: Config)
    ensures EmitAttrs([], tail, cfg) == tail
  {
  }

  lemma NameStartNotBlank(c: char)
    requires IsNameStartChar(c)
    ensures !IsWhiteSpace(c) && c != '/' && c != '>' && c != '<' && c != '!' && c != '?'
  {
  }

  lemma HeadIs(s: string, k: nat, attrs: seq<Attr>, selfClosed: bool, rest: string, cfg: Config)
    requires s != [] && IsNameStartChar(s[0]) && k == NameLength(s)
    requires ParseAttributes(s[k..], [], cfg) == AttrsOk(attrs, selfClosed, rest)
    ensures ParseHead(s, cfg) == Head(if selfClosed then Closed else Open, s[..k], attrs, rest)
  {
    hide NameLength, ParseAttributes, SkipWS;
    NameStartNotBlank(s[0]);
    SkipNothing(s);
  }

  lemma TagEnd(end: string, attrs: seq<Attr>, cfg: Config)
    requires end != [] && (end[0] == '>' || (end[0] == '/' && |end| > 1 && end[1] == '>'))
    ensures ParseAttributes(end, attrs, cfg)
              == if end[0] == '>' then AttrsOk(attrs, false, end[1..]) else AttrsOk(attrs, true, end[2..])
  {
    hide SkipWS, ParseAttribute, Names;
    SkipNothing(end);
  }

  lemma EmitAttrsStart(attrs: seq<Attr>, end: string, cfg: Config)
    requires end != [] && (end[0] == '>' || end[0] == '/')
    ensures EmitAttrs(attrs, end, cfg) != [] && !IsNameChar(EmitAttrs(attrs, end, cfg)[0])
  {
    hide Escaped;
  }

  /** A printed tag without its '<': what follows the attributes decides how it is closed. */
  lemma HeadRoundTrip(name: string, attrs: seq<Attr>, end: string, cfg: Config)
    requires ValidName(name) && NormalAttrs(attrs, cfg)
    requires end != [] && (end[0] == '>' || (end[0] == '/' && |end| > 1 && end[1] == '>'))
    ensures ParseHead(name + EmitAttrs(attrs, end, cfg), cfg)
              == if end[0] == '>' then Head(Open, name, attrs, end[1..]) else Head(Closed, name, attrs, end[2..])
  {
    hide EmitAttrs, NameLength, NormalAttrs, ParseHead, ParseAttributes;
    var tail := EmitAttrs(attrs, end, cfg);
    EmitAttrsStart(attrs, end, cfg);
    NameIs(name, tail);
    Drop(name, tail);
    AttrsRoundTrip(attrs, [], end, cfg);
    assert [] + attrs == attrs;
    TagEnd(end, attrs, cfg);
    var s := name + tail;
    assert s[0] == name[0];
    HeadIs(s, |name|, attrs, end[0] != '>', if end[0] == '>' then end[1..] else end[2..], cfg);
  }

  lemma EndTagHead(name: string, tail: string, cfg: Config)
    requires ValidName(name)
    ensures ParseHead("/" + (name + (">" + tail)), cfg) == Head(ClosingTag, name, [], tail)
  {
    hide SkipWS, NameLength, ParseAttributes, ParseHead;
    var end := ">" + tail;
    var s := "/" + (name + end);
    Drop("/", name + end);
    Drop(">", tail);
    SkipNothing(s);
    TagEnd(end, [], cfg);
    NameIs(name, end);
    Drop(name, end);
    EndHeadIs(s, name + end, |name|, tail, cfg);
  }

  lemma EndHeadIs(s: string, u: string, k: nat, tail: string, cfg: Config)
    requires SkipWS(s) == s && s != [] && s[0] == '/' && u == s[1..] && k == NameLength(u) && k > 0
    requires ParseAttributes(u[k..], [], cfg) == AttrsOk([], false, tail)
    ensures ParseHead(s, cfg) == Head(ClosingTag, u[..k], [], tail)
  {
    hide SkipWS, NameLength, ParseAttributes;
  }

  // ---------- recognising the printed node ----------

  lemma DeclarationHeader(v: string)
    ensures SkipWS("<?" + v) == "<?" + v && Identify("<?" + v).DeclarationKind? && ("<?" + v)[2..] == v
  {
    hide SkipWS;
    SkipNothing("<?" + v);
    Drop("<?", v);
    assert StartsWith("<?" + v, "<?");
  }

  lemma CommentHeader(v: string)
    ensures SkipWS("<!--" + v) == "<!--" + v && Identify("<!--" + v).CommentKind? && ("<!--" + v)[4..] == v
  {
    hide SkipWS;
    var s := "<!--" + v;
    SkipNothing(s);
    Drop("<!--", v);
    assert StartsWith(s, "<!--") && s[1] == '!' && "<?"[1] == '?';
  }

  lemma CDataHeader(v: string)
    ensures SkipWS("<![CDATA[" + v) == "<![CDATA[" + v && Identify("<![CDATA[" + v).CDataKind? && ("<![CDATA[" + v)[9..] == v
  {
    hide SkipWS;
    var s := "<![CDATA[" + v;
    SkipNothing(s);
    Drop("<![CDATA[", v);
    assert StartsWith(s, "<![CDATA[") && s[1] == '!' && s[2] == '[' && "<?"[1] == '?' && "<!--"[2] == '-';
  }

  lemma UnknownHeader(v: string, tail: string)
    requires !StartsWith(v, "--") && !StartsWith(v, "[CDATA[")
    ensures var s := "<!" + (v + (">" + tail));
            SkipWS(s) == s && Identify(s).UnknownKind? && s[2..] == v + (">" + tail)
  {
    var s := "<!" + (v + (">" + tail));
    SkipNothing(s);
    hide SkipWS;
    Drop("<!", v + (">" + tail));
    assert s[1] == '!' && "<?"[1] == '?' && StartsWith(s, "<!");
    NotHeader(s, v, tail, "--", "<!--");
    NotHeader(s, v, tail, "[CDATA[", "<![CDATA[");
  }

  lemma NotHeader(s: string, v: string, tail: string, start: string, header: string)
    requires s == "<!" + (v + (">" + tail)) && header == "<!" + start && !StartsWith(v, start) && Without(start, '>')
    ensures !StartsWith(s, header)
  {
    if |v| < |start| {
      assert s[2 + |v|] == '>' && header[2 + |v|] == start[|v|];
    } else {
      var j :| 0 <= j < |start| && v[j] != start[j];
      assert s[2 + j] == v[j] && header[2 + j] == start[j];
    }
  }

  lemma ElementHeader(v: string)
    requires v != [] && (IsNameStartChar(v[0]) || v[0] == '/')
    ensures SkipWS("<" + v) == "<" + v && Identify("<" + v).ElementKind? && ("<" + v)[1..] == v
  {
    var s := "<" + v;
    SkipNothing(s);
    Drop("<", v);
    assert StartsWith(s, "<") && s[1] == v[0] && "<?"[1] == '?' && "<!--"[1] == '!' && "<![CDATA["[1] == '!' && "<!"[1] == '!';
    assert IsNameStartChar(v[0]) ==> v[0] != '?' && v[0] != '!';
  }

  /** Printed text: blanks may come first, but then something that is no '<'. */
  lemma TextHeader(e: string, tail: string)
    requires !AllBlank(e) && Without(e, '<')
    ensures SkipWS(e + tail) != [] && Identify(SkipWS(e + tail)).TextKind? && (e + tail)[0] != '<'
  {
    var s := e + tail;
    var t := SkipWS(s);
    var j := |s| - |t|;
    hide SkipWS;
    var k :| 0 <= k < |e| && !IsWhiteSpace(e[k]);
    assert s[k] == e[k];
    assert j <= k;
    assert t[0] == s[j] == e[j];
    assert "<?"[0] == '<' && "<!--"[0] == '<' && "<![CDATA["[0] == '<' && "<!"[0] == '<' && "<"[0] == '<';
  }

  // ---------- one node, then sibling lists ----------

  /** Text needs markup behind it. */
  predicate TailFits(n: Node, tail: string) {
    PlainText(n) ==> |tail| >= 2 && tail[0] == '<'
  }

  /** A printed text, with whatever blanks the layout puts around it. */
  lemma TextRoundTrip(v: string, tail: string, cfg: Config)
    requires Plain(v) && !AllBlank(v) && (cfg.processEntities || Without(v, '<')) && |tail| >= 2 && tail[0] == '<'
    ensures var s := Escaped(v, true, cfg) + tail;
            && SkipWS(s) != [] && Identify(SkipWS(s)).TextKind? && s[0] != '<'
            && ParseText(s, cfg) == Got(Text(if cfg.collapse then Collapse(v) else v, false), tail)
  {
    hide SkipWS, Identify, Find, Value, Escape, Collapse, AllBlank;
    var e := Escaped(v, true, cfg);
    if cfg.processEntities {
      EscapeNotBlank(v, true);
    }
    EscapedWithout(v, true, cfg, '<');
    hide Escaped;
    TextHeader(e, tail);
    assert tail == ['<'] + tail[1..];
    FindChar(e, '<', tail[1..]);
    Drop(e, tail);
    ValueOfEscaped(v, true, cfg.collapse, cfg);
  }

  lemma CDataRoundTrip(v: string, tail: string, depth: nat, top: bool, acc: seq<Node>, cfg: Config)
    requires Plain(v) && Find(v, "]]>").None? && 1 <= depth < MAX_DEPTH
    ensures ParseOne("<![CDATA[" + (v + ("]]>" + tail)), depth, top, acc, cfg) == Got(Text(v, true), tail)
  {
    hide SkipWS, Identify, Find, ParseText, ParseBody, Borderless, Plain;
    Terminators();
    CDataHeader(v + ("]]>" + tail));
    BodyRoundTrip(v, "]]>", tail, w => Text(w, true), ErrCData);
  }

  lemma CommentRoundTrip(v: string, tail: string, depth: nat, top: bool, acc: seq<Node>, cfg: Config)
    requires Plain(v) && Find(v, "-->").None? && 1 <= depth < MAX_DEPTH
    ensures ParseOne("<!--" + (v + ("-->" + tail)), depth, top, acc, cfg) == Got(Comment(v), tail)
  {
    hide SkipWS, Identify, Find, ParseText, ParseBody, Borderless, Plain;
    Terminators();
    CommentHeader(v + ("-->" + tail));
    BodyRoundTrip(v, "-->", tail, w => Comment(w), ErrComment);
  }

  lemma DeclarationRoundTrip(v: string, tail: string, depth: nat, top: bool, acc: seq<Node>, cfg: Config)
    requires Plain(v) && Find(v, "?>").None? && 1 <= depth < MAX_DEPTH && DeclarationAllowed(top, acc)
    ensures ParseOne("<?" + (v + ("?>" + tail)), depth, top, acc, cfg) == Got(Declaration(v), tail)
  {
    hide SkipWS, Identify, Find, ParseText, ParseBody, Borderless, Plain, DeclarationAllowed;
    Terminators();
    DeclarationHeader(v + ("?>" + tail));
    BodyRoundTrip(v, "?>", tail, w => Declaration(w), ErrDeclaration);
  }

  lemma UnknownRoundTrip(v: string, tail: string, depth: nat, top: bool, acc: seq<Node>, cfg: Config)
    requires Plain(v) && Find(v, ">").None? && !StartsWith(v, "--") && !StartsWith(v, "[CDATA[") && 1 <= depth < MAX_DEPTH
    ensures ParseOne("<!" + (v + (">" + tail)), depth, top, acc, cfg) == Got(Unknown(v), tail)
  {
    hide SkipWS, Identify, Find, ParseText, ParseBody, Borderless, Plain, StartsWith;
    Terminators();
    UnknownHeader(v, tail);
    BodyRoundTrip(v, ">", tail, w => Unknown(w), ErrUnknown);
  }

  lemma LeafRoundTrip(n: Node, p: Layout, tail: string, depth: nat, top: bool, acc: seq<Node>, cfg: Config)
    requires !n.Element? && !PlainText(n) && NormalNode(n, depth, cfg) && 1 <= depth < MAX_DEPTH
    requires n.Declaration? ==> DeclarationAllowed(top, acc)
    ensures ParseOne(EmitNode(n, p, tail, cfg), depth, top, acc, cfg) == Got(n, tail)
  {
    hide SkipWS, Identify, Find, Escaped, StartsWith, NormalText, ParseText, Plain, DeclarationAllowed, ParseOne, ElementEnd;
    match n {
      case Text(v, _) => CDataRoundTrip(v, tail, depth, top, acc, cfg);
      case Comment(v) => CommentRoundTrip(v, tail, depth, top, acc, cfg);
      case Declaration(v) => DeclarationRoundTrip(v, tail, depth, top, acc, cfg);
      case Unknown(v) => UnknownRoundTrip(v, tail, depth, top, acc, cfg);
    }
  }

  /** Blanks before markup, or at the very end, are not seen. */
  lemma BlanksIgnored(b: string, s: string, depth: nat, top: bool, acc: seq<Node>, cfg: Config)
    requires AllBlank(b) && (SkipWS(s) == [] || SkipWS(s)[0] == '<') && 1 <= depth < MAX_DEPTH
    ensures ParseContent(b + s, depth, top, acc, cfg) == ParseContent(s, depth, top, acc, cfg)
    ensures SkipWS(b + s) == SkipWS(s)
  {
    hide SkipWS, AllBlank, ParseOne, ParseContent;
    SkipOver(b, s);
    SameParse(b + s, s, depth, top, acc, cfg);
  }

  lemma {:induction false} SkipOver(b: string, s: string)
    requires AllBlank(b)
    ensures SkipWS(b + s) == SkipWS(s)
  {
    if b == [] {
      assert b + s == s;
    } else {
      assert (b + s)[1..] == b[1..] + s && (b + s)[0] == b[0];
      SkipOver(b[1..], s);
    }
  }

  lemma SameParse(s: string, t: string, depth: nat, top: bool, acc: seq<Node>, cfg: Config)
    requires SkipWS(s) == SkipWS(t) && (SkipWS(s) == [] || SkipWS(s)[0] == '<') && 1 <= depth < MAX_DEPTH
    ensures ParseContent(s, depth, top, acc, cfg) == ParseContent(t, depth, top, acc, cfg)
  {
    hide ParseOne, SkipWS, ParseContent;
    SameNode(s, t, depth, top, acc, cfg);
    NothingSkipped(s, depth, top, acc, cfg);
    NothingSkipped(t, depth, top, acc, cfg);
    ContentOf(s, depth, top, acc, cfg);
    ContentOf(t, depth, top, acc, cfg);
  }

  lemma ContentOf(s: string, depth: nat, top: bool, acc: seq<Node>, cfg: Config)
    requires 1 <= depth < MAX_DEPTH
    ensures ParseContent(s, depth, top, acc, cfg) ==
              match ParseOne(s, depth, top, acc, cfg)
              case NoNode => Ended(acc)
              case Fail(e) => Failed(e)
              case EndTag(name, rest) => AtEndTag(acc, name, rest)
              case Got(node, rest) => ParseContent(rest, depth, top, acc + [node], cfg)
  {
    hide ParseOne;
    NothingSkipped(s, depth, top, acc, cfg);
  }

  lemma NothingSkipped(s: string, depth: nat, top: bool, acc: seq<Node>, cfg: Config)
    requires 1 <= depth < MAX_DEPTH
    ensures s == [] ==> SkipWS(s) == []
    ensures SkipWS(s) == [] ==> ParseOne(s, depth, top, acc, cfg).NoNode?
  {
    hide Identify, ParseText, ParseElement;
  }

  lemma SameNode(s: string, t: string, depth: nat, top: bool, acc: seq<Node>, cfg: Config)
    requires SkipWS(s) == SkipWS(t) && (SkipWS(s) == [] || SkipWS(s)[0] == '<') && 1 <= depth < MAX_DEPTH
    ensures ParseOne(s, depth, top, acc, cfg) == ParseOne(t, depth, top, acc, cfg)
  {
    hide SkipWS, ParseText, ParseElement, ParseBody, ParseDeclaration, StartsWith;
    if SkipWS(s) != [] {
      MarkupIsNoText(SkipWS(s));
    }
    hide Identify;
  }

  lemma MarkupIsNoText(t: string)
    requires t != [] && t[0] == '<'
    ensures !Identify(t).TextKind?
  {
    assert StartsWith(t, "<");
  }

  lemma ElementIs(s: string, t: string, depth: nat, top: bool, acc: seq<Node>, cfg: Config)
    requires SkipWS(s) == s && s != [] && Identify(s).ElementKind? && s[1..] == t && 1 <= depth < MAX_DEPTH
    ensures ParseOne(s, depth, top, acc, cfg) == ParseElement(t, depth, cfg)
  {
    hide SkipWS, Identify, ParseElement;
  }

  /** A closing tag ends the list it stands in. */
  lemma EndTagEnds(b: string, name: string, tail: string, depth: nat, top: bool, acc: seq<Node>, cfg: Config)
    requires AllBlank(b) && ValidName(name) && 1 <= depth < MAX_DEPTH
    ensures ParseContent(b + CloseTag(name, tail), depth, top, acc, cfg) == AtEndTag(acc, name, tail)
  {
    hide SkipWS, Identify, ParseHead, ParseOne, ValidName, AllBlank;
    var t := "/" + (name + (">" + tail));
    assert CloseTag(name, tail) == "<" + t;
    hide CloseTag;
    ElementHeader(t);
    EndTagHead(name, tail, cfg);
    ElementIs("<" + t, t, depth, top, acc, cfg);
    BlanksIgnored(b, "<" + t, depth, top, acc, cfg);
  }

  lemma ContentStep(n: Node, s: string, rest: string, depth: nat, top: bool, acc: seq<Node>, cfg: Config)
    requires 1 <= depth < MAX_DEPTH && s != [] && ParseOne(s, depth, top, acc, cfg) == Got(n, rest)
    ensures ParseContent(s, depth, top, acc, cfg) == ParseContent(rest, depth, top, acc + [n], cfg)
  {
    hide ParseOne;
  }

  // ---------- what pretty layout adds to texts ----------

  /** What the printer writes for layout. */
  predicate LayoutBlank(b: string) {
    forall i :: 0 <= i < |b| ==> b[i] == ' ' || b[i] == '\n'
  }

  /** A text that is printed with layout around it, as it is read back. */
  function WithLayout(v: string, pre: string, post: string, cfg: Config): string {
    if cfg.collapse then v else pre + v + post
  }

  /** Layout in front of the second of some siblings, which stands directly behind the first. */
  function Post(ns: seq<Node>, p: Layout): string
    requires ns != []
  {
    if |ns| > 1 then Lead(ns[1], LayoutAfter(ns[0], p)) else []
  }

  /** Layout that stands behind a node whatever follows it. */
  function Pre(n: Node, p: Layout): string {
    if n.Element? then AfterElement(p) else []
  }

  /** The siblings that are read back: printed at `p`, with the layout `pre` in front of the first. */
  function Padded(ns: seq<Node>, pre: string, p: Layout, cfg: Config): (r: seq<Node>)
    ensures |r| == |ns|
    decreases ns, 0
  {
    if ns == [] then []
    else [PaddedNode(ns[0], pre, Post(ns, p), p, cfg)] + Padded(ns[1..], Pre(ns[0], p), LayoutAfter(ns[0], p), cfg)
  }

  function PaddedNode(n: Node, pre: string, post: string, p: Layout, cfg: Config): Node
    decreases n, 1
  {
    match n
    case Element(name, attrs, children) => Element(name, attrs, Padded(children, [], Inside(p), cfg))
    case Text(v, cdata) => if cdata then n else Text(WithLayout(v, pre, post, cfg), false)
    case _ => n
  }

  lemma LayoutIsBlank(n: Node, p: Layout, depth: nat)
    ensures LayoutBlank(Lead(n, p)) && LayoutBlank(AfterElement(p)) && LayoutBlank(BeforeClose(p, depth)) && LayoutBlank([])
    ensures n.Text? ==> Lead(n, p) == []
  {
  }

  lemma BlankFacts(b: string)
    requires LayoutBlank(b)
    ensures AllBlank(b) && Plain(b)
  {
  }

  lemma {:induction false} EscapeAppend(a: string, b: string, restricted: bool)
    ensures Escape(a + b, restricted) == Escape(a, restricted) + Escape(b, restricted)
  {
    hide EscapeChar;
    if a == [] {
      assert a + b == b && Escape(a, restricted) + Escape(b, restricted) == Escape(b, restricted);
    } else {
      assert (a + b)[1..] == a[1..] + b && (a + b)[0] == a[0];
      EscapeAppend(a[1..], b, restricted);
      Associates(EscapeChar(a[0], restricted), Escape(a[1..], restricted), Escape(b, restricted));
    }
  }

  lemma {:induction false} EscapeBlank(b: string, restricted: bool)
    requires LayoutBlank(b)
    ensures Escape(b, restricted) == b
  {
    if b != [] {
      EscapeBlank(b[1..], restricted);
      assert b == [b[0]] + b[1..];
    }
  }

  lemma EscapedAround(v: string, pre: string, post: string, cfg: Config)
    requires LayoutBlank(pre) && LayoutBlank(post)
    ensures Escaped(pre + v + post, true, cfg) == pre + Escaped(v, true, cfg) + post
  {
    hide Escape;
    if cfg.processEntities {
      EscapeAppend(pre + v, post, true);
      EscapeAppend(pre, v, true);
      EscapeBlank(pre, true);
      EscapeBlank(post, true);
    }
  }

  lemma AroundIsText(v: string, pre: string, post: string, cfg: Config)
    requires NormalText(v, cfg) && LayoutBlank(pre) && LayoutBlank(post)
    ensures var w := pre + v + post; Plain(w) && !AllBlank(w) && (cfg.processEntities || Without(w, '<'))
  {
    hide Collapse;
    var w := pre + v + post;
    BlankFacts(pre);
    BlankFacts(post);
    var k :| 0 <= k < |v| && !IsWhiteSpace(v[k]);
    assert w[|pre| + k] == v[k];
  }

  lemma CollapseAround(pre: string, v: string, post: string)
    requires AllBlank(pre) && AllBlank(post)
    ensures Collapse(pre + v + post) == Collapse(v)
  {
    hide Words;
    WordsBehind(pre, v + post);
    Associates(pre, v, post);
    WordsBefore(v, post);
  }

  lemma WordsBehind(b: string, s: string)
    requires AllBlank(b)
    ensures Words(b + s) == Words(s)
  {
    hide SkipWS, WordLength;
    SkipOver(b, s);
  }

  lemma {:induction false} WordsBefore(s: string, b: string)
    requires AllBlank(b)
    ensures Words(s + b) == Words(s)
    decreases |s|
  {
    hide Words, SkipWS, WordLength, AllBlank;
    var t := SkipWS(s);
    BlanksAside(s, t, b);
    if t == [] {
      NoWords(s);
      NoWords(s + b);
    } else {
      var k := WordLength(t);
      WordsStep(s);
      FirstWord(t);
      BlankNext(t[k..], b);
      WordsSplit(t[..k], t[k..] + b);
      assert t + b == t[..k] + (t[k..] + b);
      WordsBefore(t[k..], b);
    }
  }

  /** Leading blanks do not matter, nor do blanks behind nothing but blanks. */
  lemma BlanksAside(s: string, t: string, b: string)
    requires t == SkipWS(s) && AllBlank(b)
    ensures Words(s + b) == Words(t + b) && (t == [] ==> SkipWS(s + b) == [])
  {
    hide Words, SkipWS;
    var a := s[..|s| - |t|];
    assert s == a + t;
    assert AllBlank(a);
    assert s + b == a + (t + b);
    WordsBehind(a, t + b);
    if t == [] {
      SkipOver(a, b);
      SkipOver(b, []);
      assert t + b == b + [] == b;
      SkipNothing([]);
    }
  }

  lemma BlankNext(a: string, b: string)
    requires AllBlank(b) && (a == [] || IsWhiteSpace(a[0]))
    ensures a + b == [] || IsWhiteSpace((a + b)[0])
  {
  }

  lemma NoWords(s: string)
    requires SkipWS(s) == []
    ensures Words(s) == []
  {
  }

  lemma FirstWord(t: string)
    requires t != [] && !IsWhiteSpace(t[0])
    ensures var k := WordLength(t); 0 < k <= |t| && IsWord(t[..k]) && (t[k..] == [] || IsWhiteSpace(t[k..][0]))
  {
  }

  /** Collapsing, text by text: blanks in front of a word and behind the last one go, and a single space stays between two. */
  lemma CollapseIs(b: string, w: string, s: string)
    requires forall i :: 0 <= i < |b| ==> b[i] as int in {9, 10, 11, 12, 13, 32}
    requires w != [] && forall i :: 0 <= i < |w| ==> w[i] as int !in {9, 10, 11, 12, 13, 32}
    requires s == [] || s[0] as int in {9, 10, 11, 12, 13, 32}
    ensures Collapse(b) == [] && Collapse(b + w + s) == w + if Collapse(s) == [] then [] else " " + Collapse(s)
  {
    hide Words, AllBlank, SkipWS;
    forall c: char
      ensures IsWhiteSpace(c) <==> c as int in {9, 10, 11, 12, 13, 32}
    {
      BlankIs(c);
    }
    assert IsWord(w);
    hide IsWhiteSpace, IsWord;
    BlankPart(b);
    var none: string := [];
    WordsBehind(b, none);
    NoWords(none);
    assert b + none == b;
    WordsBehind(b, w + s);
    Associates(b, w, s);
    WordsSplit(w, s);
    WordsAreWords(s);
    WordsOfJoin(Words(s));
    assert ([w] + Words(s))[1..] == Words(s);
    Associates(w, [' '], JoinWords(Words(s)));
  }

  lemma BlankPart(b: string)
    requires forall i :: 0 <= i < |b| ==> b[i] as int in {9, 10, 11, 12, 13, 32}
    ensures AllBlank(b)
  {
    forall i | 0 <= i < |b|
      ensures IsWhiteSpace(b[i])
    {
      BlankIs(b[i]);
    }
  }

  /** Text with layout around it, printed and read back. */
  lemma AroundRoundTrip(v: string, pre: string, post: string, tail: string, cfg: Config)
    requires NormalText(v, cfg) && LayoutBlank(pre) && LayoutBlank(post) && |tail| >= 2 && tail[0] == '<'
    ensures var s := pre + (Escaped(v, true, cfg) + (post + tail));
            && SkipWS(s) != [] && Identify(SkipWS(s)).TextKind? && s != [] && s[0] != '<'
            && ParseText(s, cfg) == Got(Text(WithLayout(v, pre, post, cfg), false), tail)
  {
    hide SkipWS, Identify, ParseText, Escaped, Collapse, AllBlank, Plain, LayoutBlank;
    var w := pre + v + post;
    AroundIsText(v, pre, post, cfg);
    EscapedAround(v, pre, post, cfg);
    TextRoundTrip(w, tail, cfg);
    BlankFacts(pre);
    BlankFacts(post);
    CollapseAround(pre, v, post);
    Associates(pre + Escaped(v, true, cfg), post, tail);
    Associates(pre, Escaped(v, true, cfg), post + tail);
  }

  lemma TextNode(s: string, depth: nat, top: bool, acc: seq<Node>, cfg: Config)
    requires SkipWS(s) != [] && Identify(SkipWS(s)).TextKind? && s != [] && s[0] != '<' && 1 <= depth < MAX_DEPTH
    ensures ParseOne(s, depth, top, acc, cfg) == ParseText(s, cfg)
  {
    hide SkipWS, Identify, ParseText;
    ChildCases(s, depth, top, acc, cfg);
  }

  // ---------- nodes and lists ----------

  lemma ElementOf(n: Node, p: Layout, tail: string, depth: nat, top: bool, acc: seq<Node>, cfg: Config)
    requires n.Element? && ValidName(n.name) && NormalAttrs(n.attrs, cfg) && 1 <= depth < MAX_DEPTH
    ensures EmitNode(n, p, tail, cfg) != []
    ensures var end := ElementEnd(n, p, tail, cfg);
            && ParseHead(n.name + EmitAttrs(n.attrs, end, cfg), cfg)
                 == Head(if n.children == [] then Closed else Open, n.name, n.attrs, if n.children == [] then AfterElement(p) + tail else end[1..])
            && ParseOne(EmitNode(n, p, tail, cfg), depth, top, acc, cfg) == ParseElement(n.name + EmitAttrs(n.attrs, end, cfg), depth, cfg)
  {
    hide ParseElement, ParseHead, EmitAttrs, EmitNodes, Identify, SkipWS, NormalAttrs, ParseOne;
    hide CloseTag, AfterElement, BeforeClose, Indent, LayoutAfterAll;
    var end := ElementEnd(n, p, tail, cfg);
    var t := n.name + EmitAttrs(n.attrs, end, cfg);
    assert EmitNode(n, p, tail, cfg) == "<" + t && t[0] == n.name[0];
    HeadRoundTrip(n.name, n.attrs, end, cfg);
    ElementHeader(t);
    ElementIs("<" + t, t, depth, top, acc, cfg);
  }

  lemma {:induction false} NodeRoundTrip(n: Node, p: Layout, tail: string, depth: nat, top: bool, acc: seq<Node>, cfg: Config)
    requires NormalNode(n, depth, cfg) && !PlainText(n) && LayoutFits(p) && 1 <= depth < MAX_DEPTH
    requires n.Declaration? ==> DeclarationAllowed(top, acc)
    ensures EmitNode(n, p, tail, cfg) != []
    ensures ParseOne(EmitNode(n, p, tail, cfg), depth, top, acc, cfg) == Got(PaddedNode(n, [], [], p, cfg), Pre(n, p) + tail)
    decreases n, 1
  {
    hide ParseHead, EmitAttrs, EmitNodes, EmitNode, ParseOne, ParseContent, NormalAttrs, NoAdjacentText, DeclarationAllowed, ElementEnd;
    hide CloseTag, AfterElement, BeforeClose, LayoutAfterAll, ValidName, NormalText, ParseElement, Level, FinishElement, Find, StartsWith, Plain, Padded;
    if n.Element? {
      ElementOf(n, p, tail, depth, top, acc, cfg);
      var end := ElementEnd(n, p, tail, cfg);
      var h := n.name + EmitAttrs(n.attrs, end, cfg);
      ElementCases(h, depth, cfg);
      if n.children == [] {
        NothingPadded(Inside(p), cfg);
      } else {
        ChildrenRoundTrip(n, p, tail, depth, cfg);
        FinishCases(ParseHead(h, cfg), Level(end[1..], depth + 1, false, cfg));
      }
    } else {
      LeafRoundTrip(n, p, tail, depth, top, acc, cfg);
      assert [] + tail == tail;
      ParseOneOfNothing(depth, top, acc, cfg);
    }
  }

  lemma NothingPadded(p: Layout, cfg: Config)
    ensures Padded([], [], p, cfg) == []
  {
  }

  lemma {:induction false} ChildrenRoundTrip(n: Node, p: Layout, tail: string, depth: nat, cfg: Config)
    requires n.Element? && n.children != [] && NormalNode(n, depth, cfg) && LayoutFits(p) && 1 <= depth < MAX_DEPTH
    ensures var end := ElementEnd(n, p, tail, cfg);
            |end| > 1 && var inner := end[1..];
            Level(inner, depth + 1, false, cfg) == AtEndTag(Padded(n.children, [], Inside(p), cfg), n.name, AfterElement(p) + tail)
    decreases n, 0
  {
    hide ParseContent, NormalAttrs, CloseTag, AfterElement, BeforeClose, LayoutAfterAll, EmitNodes, Padded, ValidName, NormalNode, NoAdjacentText, AllBlank, LayoutBlank;
    ChildrenAreNormal(n, depth, cfg);
    var q, after := Inside(p), AfterElement(p) + tail;
    var b := BeforeClose(LayoutAfterAll(n.children, q), p.depth);
    var close := b + CloseTag(n.name, after);
    var inner := EmitNodes(n.children, q, close, cfg);
    assert ElementEnd(n, p, tail, cfg)[1..] == inner;
    CloseFits(n.children, q, n.name, after);
    LayoutIsBlank(n, p, 0);
    ContentRoundTrip(n.children, [], q, close, depth + 1, false, [], cfg);
    assert [] + inner == inner && [] + Padded(n.children, [], q, cfg) == Padded(n.children, [], q, cfg);
    EndTagEnds(b, n.name, after, depth + 1, false, Padded(n.children, [], q, cfg), cfg);
    ContentNotEmpty(inner, depth + 1, cfg);
    LevelCases(inner, depth + 1, false, cfg);
  }

  lemma ChildrenAreNormal(n: Node, depth: nat, cfg: Config)
    requires n.Element? && n.children != [] && NormalNode(n, depth, cfg)
    ensures ValidName(n.name) && depth + 1 < MAX_DEPTH && NormalNodes(n.children, depth + 1, cfg) && DeclarationsFit(false, [], n.children)
  {
  }

  /** Line breaks are switched off by no element that is not open. */
  predicate LayoutFits(p: Layout) {
    -1 <= p.textDepth < p.depth
  }

  lemma {:induction false} AfterFits(n: Node, p: Layout)
    requires LayoutFits(p)
    ensures LayoutFits(LayoutAfter(n, p)) && LayoutAfter(n, p).depth == p.depth && LayoutAfter(n, p).pretty == p.pretty
    decreases n, 1
  {
    if n.Element? {
      AfterAllFits(n.children, Inside(p));
    }
  }

  lemma {:induction false} AfterAllFits(ns: seq<Node>, p: Layout)
    requires LayoutFits(p)
    ensures LayoutFits(LayoutAfterAll(ns, p)) && LayoutAfterAll(ns, p).depth == p.depth && LayoutAfterAll(ns, p).pretty == p.pretty
    decreases ns, 0
  {
    hide LayoutAfter;
    if ns != [] {
      AfterFits(ns[0], p);
      AfterAllFits(ns[1..], LayoutAfter(ns[0], p));
    }
  }

  /** Behind a text at the end of its parent no line break is written. */
  lemma {:induction false} LastText(ns: seq<Node>, p: Layout)
    requires ns != [] && PlainText(ns[|ns| - 1]) && LayoutFits(p)
    ensures LayoutAfterAll(ns, p).textDepth == p.depth - 1
    decreases |ns|
  {
    hide LayoutAfter;
    AfterFits(ns[0], p);
    if |ns| == 1 {
      assert ns[1..] == [];
      TextLayout(ns[0], p);
    } else {
      LastText(ns[1..], LayoutAfter(ns[0], p));
    }
  }

  lemma TextLayout(n: Node, p: Layout)
    requires n.Text?
    ensures LayoutAfter(n, p) == p.(textDepth := p.depth - 1)
  {
  }

  lemma CloseFits(ns: seq<Node>, p: Layout, name: string, after: string)
    requires ns != [] && LayoutFits(p) && p.depth >= 1
    ensures var b := BeforeClose(LayoutAfterAll(ns, p), p.depth - 1);
            AllBlank(b) && ListFits(ns, b + CloseTag(name, after)) && MarkupNext(b + CloseTag(name, after))
  {
    hide LayoutAfterAll;
    var b, c := BeforeClose(LayoutAfterAll(ns, p), p.depth - 1), CloseTag(name, after);
    LayoutIsBlank(ns[0], LayoutAfterAll(ns, p), p.depth - 1);
    BlankFacts(b);
    assert c[0] == '<' && |c| >= 2;
    SkipOver(b, c);
    SkipNothing(c);
    hide SkipWS;
    if PlainText(ns[|ns| - 1]) {
      LastText(ns, p);
      assert b == [] && b + c == c;
    }
  }

  lemma ParseOneOfNothing(depth: nat, top: bool, acc: seq<Node>, cfg: Config)
    requires 1 <= depth < MAX_DEPTH
    ensures ParseOne([], depth, top, acc, cfg).NoNode?
  {
  }

  lemma ContentNotEmpty(s: string, depth: nat, cfg: Config)
    requires 1 <= depth < MAX_DEPTH && ParseContent(s, depth, false, [], cfg).AtEndTag?
    ensures s != []
  {
  }

  /** Each declaration of `ns`, read after `acc`, has nothing but declarations before it, and stands at the top. */
  predicate DeclarationsFit(top: bool, acc: seq<Node>, ns: seq<Node>) {
    forall i :: 0 <= i < |ns| && ns[i].Declaration? ==>
      top && (forall j :: 0 <= j < |acc| ==> acc[j].Declaration?) && forall j :: 0 <= j < i ==> ns[j].Declaration?
  }

  lemma DeclarationsStep(top: bool, acc: seq<Node>, ns: seq<Node>, x: Node)
    requires ns != [] && DeclarationsFit(top, acc, ns) && x.Declaration? == ns[0].Declaration?
    ensures ns[0].Declaration? ==> DeclarationAllowed(top, acc)
    ensures DeclarationsFit(top, acc + [x], ns[1..])
  {
    forall i | 0 <= i < |ns| - 1 && ns[1..][i].Declaration?
      ensures top && (forall j :: 0 <= j < |acc + [x]| ==> (acc + [x])[j].Declaration?) && forall j :: 0 <= j < i ==> ns[1..][j].Declaration?
    {
      assert ns[i + 1].Declaration? && ns[0].Declaration?;
    }
  }

  predicate ListFits(ns: seq<Node>, tail: string) {
    ns != [] ==> TailFits(ns[|ns| - 1], tail)
  }

  /** Behind leading blanks there is markup or nothing. */
  predicate MarkupNext(s: string) {
    SkipWS(s) == [] || SkipWS(s)[0] == '<'
  }

  lemma MarkupStarts(n: Node, p: Layout, tail: string, cfg: Config)
    requires !PlainText(n)
    ensures |EmitNode(n, p, tail, cfg)| >= 2 && EmitNode(n, p, tail, cfg)[0] == '<'
  {
    if n.Element? {
      hide EmitNodes, CloseTag, AfterElement, BeforeClose, LayoutAfterAll;
      EmitAttrsStart(n.attrs, ElementEnd(n, p, tail, cfg), cfg);
    }
  }

  lemma EmitFirst(ns: seq<Node>, p: Layout, tail: string, cfg: Config)
    requires ns != []
    ensures EmitNodes(ns, p, tail, cfg) == Lead(ns[0], p) + EmitNode(ns[0], p, EmitNodes(ns[1..], LayoutAfter(ns[0], p), tail, cfg), cfg)
  {
    hide EmitNode, Lead, LayoutAfter;
  }

  lemma EmitNone(p: Layout, tail: string, cfg: Config)
    ensures EmitNodes([], p, tail, cfg) == tail
  {
  }

  /** What is printed behind a text: some layout, and then markup. */
  lemma BehindText(ns: seq<Node>, p: Layout, tail: string, cfg: Config) returns (x: string)
    requires ns != [] && PlainText(ns[0]) && NoAdjacentText(ns) && ListFits(ns, tail)
    ensures EmitNodes(ns[1..], LayoutAfter(ns[0], p), tail, cfg) == Post(ns, p) + x && |x| >= 2 && x[0] == '<' && LayoutBlank(Post(ns, p))
  {
    hide EmitNodes, EmitNode, Lead, LayoutAfter, LayoutBlank;
    var q := LayoutAfter(ns[0], p);
    LayoutIsBlank(ns[0], q, 0);
    if |ns| == 1 {
      assert ns[1..] == [];
      EmitNone(q, tail, cfg);
      x := tail;
      assert [] + x == x;
    } else {
      var rest := EmitNodes(ns[1..][1..], LayoutAfter(ns[1], q), tail, cfg);
      EmitFirst(ns[1..], q, tail, cfg);
      LayoutIsBlank(ns[1], q, 0);
      x := EmitNode(ns[1], q, rest, cfg);
      assert !PlainText(ns[0 + 1]);
      MarkupStarts(ns[1], q, rest, cfg);
    }
  }

  /** Printed siblings are read back one by one and appended to what was read before. */
  lemma {:induction false} ContentRoundTrip(ns: seq<Node>, pre: string, p: Layout, tail: string,
                                            depth: nat, top: bool, acc: seq<Node>, cfg: Config)
    requires NormalNodes(ns, depth, cfg) && ListFits(ns, tail) && DeclarationsFit(top, acc, ns) && 1 <= depth < MAX_DEPTH
    requires LayoutBlank(pre) && LayoutFits(p) && MarkupNext(tail)
    ensures ParseContent(pre + EmitNodes(ns, p, tail, cfg), depth, top, acc, cfg)
              == ParseContent(tail, depth, top, acc + Padded(ns, pre, p, cfg), cfg)
    decreases ns, 0
  {
    hide ParseContent, ParseOne, EmitNode, EmitNodes, NormalNode, ListFits, DeclarationsFit, DeclarationAllowed;
    hide Lead, MarkupNext, LayoutBlank, LayoutAfter, PaddedNode, Post, Pre, NormalNodes;
    if ns == [] {
      EmitNone(p, tail, cfg);
      TailAlone(pre, tail, depth, top, acc, cfg);
      assert acc + Padded(ns, pre, p, cfg) == acc;
    } else {
      var q, x := LayoutAfter(ns[0], p), PaddedNode(ns[0], pre, Post(ns, p), p, cfg);
      PaddedKind(ns[0], pre, Post(ns, p), p, cfg);
      DeclarationsStep(top, acc, ns, x);
      RestIsNormal(ns, depth, tail, cfg);
      AfterFits(ns[0], p);
      LayoutIsBlank(ns[0], p, 0);
      PreIsBlank(ns[0], p);
      ContentRoundTrip(ns[1..], Pre(ns[0], p), q, tail, depth, top, acc + [x], cfg);
      FirstRead(ns, pre, p, tail, depth, top, acc, cfg);
      assert acc + [x] + Padded(ns[1..], Pre(ns[0], p), q, cfg) == acc + Padded(ns, pre, p, cfg);
    }
  }

  lemma PreIsBlank(n: Node, p: Layout)
    ensures LayoutBlank(Pre(n, p)) && (n.Text? ==> Pre(n, p) == [])
  {
  }

  lemma TailAlone(pre: string, tail: string, depth: nat, top: bool, acc: seq<Node>, cfg: Config)
    requires LayoutBlank(pre) && MarkupNext(tail) && 1 <= depth < MAX_DEPTH
    ensures ParseContent(pre + tail, depth, top, acc, cfg) == ParseContent(tail, depth, top, acc, cfg)
  {
    hide ParseContent;
    BlankFacts(pre);
    BlanksIgnored(pre, tail, depth, top, acc, cfg);
  }

  lemma PaddedKind(n: Node, pre: string, post: string, p: Layout, cfg: Config)
    ensures PaddedNode(n, pre, post, p, cfg).Declaration? == n.Declaration?
    ensures !PlainText(n) ==> PaddedNode(n, pre, post, p, cfg) == PaddedNode(n, [], [], p, cfg)
  {
  }

  lemma RestIsNormal(ns: seq<Node>, depth: nat, tail: string, cfg: Config)
    requires ns != [] && NormalNodes(ns, depth, cfg) && ListFits(ns, tail)
    ensures NormalNodes(ns[1..], depth, cfg) && ListFits(ns[1..], tail) && NormalNode(ns[0], depth, cfg) && NoAdjacentText(ns)
  {
    hide NormalNode;
  }

  /** The first of some printed siblings is read; what is left is the print of the others with some layout in front. */
  lemma {:induction false} FirstRead(ns: seq<Node>, pre: string, p: Layout, tail: string, depth: nat, top: bool, acc: seq<Node>, cfg: Config)
    requires ns != [] && NormalNodes(ns, depth, cfg) && ListFits(ns, tail) && 1 <= depth < MAX_DEPTH && LayoutBlank(pre) && LayoutFits(p)
    requires ns[0].Declaration? ==> DeclarationAllowed(top, acc)
    ensures ParseContent(pre + EmitNodes(ns, p, tail, cfg), depth, top, acc, cfg)
              == ParseContent(Pre(ns[0], p) + EmitNodes(ns[1..], LayoutAfter(ns[0], p), tail, cfg), depth, top,
                              acc + [PaddedNode(ns[0], pre, Post(ns, p), p, cfg)], cfg)
    decreases ns, 0, 0
  {
    hide ParseContent, ParseOne, EmitNode, EmitNodes, NormalNode, ListFits, DeclarationAllowed;
    hide Lead, LayoutBlank, LayoutAfter, PaddedNode, Post, Pre, NormalNodes, NoAdjacentText, AllBlank, SkipWS;
    var n, rest := ns[0], EmitNodes(ns[1..], LayoutAfter(ns[0], p), tail, cfg);
    EmitFirst(ns, p, tail, cfg);
    RestIsNormal(ns, depth, tail, cfg);
    LayoutIsBlank(n, p, 0);
    PreIsBlank(n, p);
    if PlainText(n) {
      var x := BehindText(ns, p, tail, cfg);
      TextRead(n, pre, Post(ns, p), p, x, depth, top, acc, cfg);
      assert [] + EmitNode(n, p, rest, cfg) == EmitNode(n, p, rest, cfg) && [] + rest == rest;
    } else {
      var printed := EmitNode(n, p, rest, cfg);
      NodeRoundTrip(n, p, rest, depth, top, acc, cfg);
      MarkupStarts(n, p, rest, cfg);
      BlanksTogether(pre, Lead(n, p));
      BlankFacts(pre + Lead(n, p));
      SkipNothing(printed);
      BlanksIgnored(pre + Lead(n, p), printed, depth, top, acc, cfg);
      Associates(pre, Lead(n, p), printed);
      PaddedKind(n, pre, Post(ns, p), p, cfg);
      ContentStep(PaddedNode(n, [], [], p, cfg), printed, Pre(n, p) + rest, depth, top, acc, cfg);
    }
  }

  lemma BlanksTogether(a: string, b: string)
    requires LayoutBlank(a) && LayoutBlank(b)
    ensures LayoutBlank(a + b)
  {
  }

  lemma TextRead(n: Node, pre: string, post: string, p: Layout, x: string, depth: nat, top: bool, acc: seq<Node>, cfg: Config)
    requires PlainText(n) && NormalNode(n, depth, cfg) && LayoutBlank(pre) && LayoutBlank(post) && |x| >= 2 && x[0] == '<' && 1 <= depth < MAX_DEPTH
    ensures ParseContent(pre + EmitNode(n, p, post + x, cfg), depth, top, acc, cfg)
              == ParseContent(post + x, depth, top, acc + [PaddedNode(n, pre, post, p, cfg)], cfg)
  {
    hide ParseContent, ParseOne, SkipWS, Identify, ParseText, Escaped, LayoutBlank, NormalText, AllBlank, WithLayout;
    var s := pre + (Escaped(n.value, true, cfg) + (post + x));
    var y := Text(WithLayout(n.value, pre, post, cfg), false);
    assert PaddedNode(n, pre, post, p, cfg) == y && EmitNode(n, p, post + x, cfg) == Escaped(n.value, true, cfg) + (post + x);
    AroundRoundTrip(n.value, pre, post, x, cfg);
    TextNode(s, depth, top, acc, cfg);
    ContentStep(y, s, x, depth, top, acc, cfg);
    BlankFacts(post);
    SkipNothing(x);
    BlanksIgnored(post, x, depth, top, acc + [y], cfg);
  }

  // ---------- which documents keep their texts in pretty layout ----------

  /** Inside elements, no element stands directly behind a plain text: the printer would indent it. */
  predicate TextsApart(ns: seq<Node>)
    decreases ns, 0
  {
    && (forall i :: 0 <= i < |ns| - 1 && PlainText(ns[i]) ==> !ns[i + 1].Element?)
    && forall i :: 0 <= i < |ns| ==> ApartBelow(ns[i])
  }

  predicate ApartBelow(n: Node)
    decreases n, 1
  {
    n.Element? ==> TextsApart(n.children)
  }

  predicate TextsOnly(ns: seq<Node>) {
    forall i :: 0 <= i < |ns| ==> ns[i].Text?
  }

  /** At the top a line break is written behind every element, and before every markup unless nothing but texts came before it. */
  predicate ApartAt(ns: seq<Node>, i: nat)
    requires i < |ns|
  {
    PlainText(ns[i]) ==> (i > 0 ==> !ns[i - 1].Element?) && (i + 1 < |ns| && !ns[i + 1].Text? ==> TextsOnly(ns[..i]))
  }

  /** The documents whose texts the pretty printer writes no layout next to. */
  predicate ApartFromLayout(ns: seq<Node>) {
    forall i :: 0 <= i < |ns| ==> ApartAt(ns, i) && ApartBelow(ns[i])
  }

  lemma PaddedStep(ns: seq<Node>, pre: string, p: Layout, cfg: Config)
    requires ns != []
    ensures (Padded(ns, pre, p, cfg) == ns) <==>
              PaddedNode(ns[0], pre, Post(ns, p), p, cfg) == ns[0] && Padded(ns[1..], Pre(ns[0], p), LayoutAfter(ns[0], p), cfg) == ns[1..]
  {
    hide PaddedNode, Post, Pre, LayoutAfter;
    var x, rest := PaddedNode(ns[0], pre, Post(ns, p), p, cfg), Padded(ns[1..], Pre(ns[0], p), LayoutAfter(ns[0], p), cfg);
    assert ([x] + rest)[0] == x && ([x] + rest)[1..] == rest;
    assert ns == [ns[0]] + ns[1..];
  }

  lemma LeafPadded(n: Node, pre: string, post: string, p: Layout, cfg: Config)
    requires !n.Element?
    ensures PaddedNode(n, pre, post, p, cfg) == n <==> !PlainText(n) || cfg.collapse || (pre == [] && post == [])
  {
    if PlainText(n) && !cfg.collapse {
      assert |pre + n.value + post| == |pre| + |n.value| + |post|;
    }
  }

  lemma ElementPadded(n: Node, pre: string, post: string, p: Layout, cfg: Config)
    requires n.Element?
    ensures PaddedNode(n, pre, post, p, cfg) == n <==> Padded(n.children, [], Inside(p), cfg) == n.children
  {
    hide Padded;
  }

  /** Without layout, or where white space is collapsed, every text comes back as it was. */
  lemma {:induction false} PaddedSame(ns: seq<Node>, pre: string, p: Layout, cfg: Config)
    requires cfg.collapse || (!p.pretty && pre == [])
    ensures Padded(ns, pre, p, cfg) == ns
    decreases ns
  {
    hide Padded, PaddedNode, Post, Pre, LayoutAfter, LayoutFits;
    if ns == [] {
      assert Padded(ns, pre, p, cfg) == [];
    } else {
      var n := ns[0];
      PaddedStep(ns, pre, p, cfg);
      CompactLayout(ns, p);
      PaddedSame(ns[1..], Pre(n, p), LayoutAfter(n, p), cfg);
      if n.Element? {
        PaddedSame(n.children, [], Inside(p), cfg);
        ElementPadded(n, pre, Post(ns, p), p, cfg);
      } else {
        LeafPadded(n, pre, Post(ns, p), p, cfg);
      }
    }
  }

  lemma CompactLayout(ns: seq<Node>, p: Layout)
    requires ns != []
    ensures LayoutAfter(ns[0], p).pretty == p.pretty
    ensures !p.pretty ==> Pre(ns[0], p) == [] && Post(ns, p) == []
  {
  }

  /** Inside an element a text gets layout exactly if an element follows it. */
  lemma {:induction false} PaddedInside(ns: seq<Node>, p: Layout, cfg: Config)
    requires p.pretty && !cfg.collapse && p.depth > 0 && LayoutFits(p)
    ensures Padded(ns, [], p, cfg) == ns <==> TextsApart(ns)
    decreases ns
  {
    hide Padded, PaddedNode, Post, Pre, LayoutAfter, TextsApart;
    if ns == [] {
      NoTexts();
      assert Padded(ns, [], p, cfg) == [];
    } else {
      var n := ns[0];
      PaddedStep(ns, [], p, cfg);
      AfterFits(n, p);
      PaddedInside(ns[1..], LayoutAfter(n, p), cfg);
      LayoutInside(ns, p);
      TextsApartStep(ns);
      if n.Element? {
        PaddedInside(n.children, Inside(p), cfg);
        ElementPadded(n, [], Post(ns, p), p, cfg);
      } else {
        LeafPadded(n, [], Post(ns, p), p, cfg);
      }
    }
  }

  lemma NoTexts()
    ensures TextsApart([])
  {
  }

  lemma TextsApartStep(ns: seq<Node>)
    requires ns != []
    ensures TextsApart(ns) <==> (|ns| > 1 && PlainText(ns[0]) ==> !ns[1].Element?) && ApartBelow(ns[0]) && TextsApart(ns[1..])
  {
    hide ApartBelow, PlainText;
    if (|ns| > 1 && PlainText(ns[0]) ==> !ns[1].Element?) && ApartBelow(ns[0]) && TextsApart(ns[1..]) {
      forall i | 0 <= i < |ns| - 1 && PlainText(ns[i])
        ensures !ns[i + 1].Element?
      {
        if i > 0 {
          assert PlainText(ns[1..][i - 1]);
        }
      }
      forall i | 0 <= i < |ns|
        ensures ApartBelow(ns[i])
      {
        if i > 0 {
          assert ApartBelow(ns[1..][i - 1]);
        }
      }
    }
    if TextsApart(ns) {
      assert forall i :: 0 <= i < |ns[1..]| ==> ns[1..][i] == ns[i + 1];
    }
  }

  lemma LayoutInside(ns: seq<Node>, p: Layout)
    requires ns != [] && p.pretty && p.depth > 0 && LayoutFits(p)
    ensures Pre(ns[0], p) == []
    ensures PlainText(ns[0]) ==> (Post(ns, p) == [] <==> !(|ns| > 1 && ns[1].Element?))
  {
    assert Indent(p.depth) != [];
  }

  lemma LayoutAtTop(ns: seq<Node>, k: nat, p: Layout)
    requires k < |ns| && p.pretty && p.depth == 0 && LayoutFits(p) && (p.first <==> TextsOnly(ns[..k]))
    ensures var n, q := ns[k], LayoutAfter(ns[k], p);
            && (Pre(n, p) == [] <==> !n.Element?) && LayoutFits(q) && q.depth == 0 && q.pretty && (q.first <==> TextsOnly(ns[..k + 1]))
            && (n.Text? ==> (Post(ns[k..], p) == [] <==> !(k + 1 < |ns| && !ns[k + 1].Text? && !p.first)))
  {
    hide TextsOnly, LayoutAfterAll;
    AfterFits(ns[k], p);
    TextsOnlyStep(ns, k);
    assert Indent(0) == [];
    assert k + 1 < |ns| ==> ns[k..][1] == ns[k + 1];
  }

  lemma TextsOnlyStep(ns: seq<Node>, k: nat)
    requires k < |ns|
    ensures TextsOnly(ns[..k + 1]) <==> TextsOnly(ns[..k]) && ns[k].Text?
  {
    assert ns[..k + 1] == ns[..k] + [ns[k]];
  }

  lemma {:induction false} PaddedAtTop(ns: seq<Node>, k: nat, pre: string, p: Layout, cfg: Config)
    requires k <= |ns| && p.pretty && !cfg.collapse && p.depth == 0 && LayoutFits(p) && (p.first <==> TextsOnly(ns[..k]))
    requires pre == [] <==> !(k > 0 && ns[k - 1].Element?)
    ensures Padded(ns[k..], pre, p, cfg) == ns[k..] <==> forall i :: k <= i < |ns| ==> ApartAt(ns, i) && ApartBelow(ns[i])
    decreases |ns| - k
  {
    hide Padded, PaddedNode, Post, Pre, LayoutAfter, TextsApart, ApartAt, TextsOnly, ApartBelow, LayoutFits;
    if k == |ns| {
      NothingPadded(p, cfg);
      assert ns[k..] == [] && Padded([], pre, p, cfg) == [];
    } else {
      var n := ns[k];
      assert ns[k..][0] == n && ns[k..][1..] == ns[k + 1..];
      PaddedStep(ns[k..], pre, p, cfg);
      LayoutAtTop(ns, k, p);
      PaddedAtTop(ns, k + 1, Pre(n, p), LayoutAfter(n, p), cfg);
      TopNode(ns, k, pre, p, cfg);
    }
  }

  lemma TopNode(ns: seq<Node>, k: nat, pre: string, p: Layout, cfg: Config)
    requires k < |ns| && p.pretty && !cfg.collapse && p.depth == 0 && LayoutFits(p) && (p.first <==> TextsOnly(ns[..k]))
    requires pre == [] <==> !(k > 0 && ns[k - 1].Element?)
    ensures PaddedNode(ns[k], pre, Post(ns[k..], p), p, cfg) == ns[k] <==> ApartAt(ns, k) && ApartBelow(ns[k])
  {
    hide Padded, PaddedNode, Post, Pre, LayoutAfter, TextsApart, TextsOnly;
    var n := ns[k];
    if n.Element? {
      PaddedInside(n.children, Inside(p), cfg);
      ElementPadded(n, pre, Post(ns[k..], p), p, cfg);
    } else {
      LayoutAtTop(ns, k, p);
      LeafPadded(n, pre, Post(ns[k..], p), p, cfg);
    }
  }

  /** Exactly when all texts of a printed document come back as they were. */
  lemma PaddedDocument(ns: seq<Node>, pretty: bool, cfg: Config)
    ensures Padded(ns, [], Start(pretty), cfg) == ns <==> !pretty || cfg.collapse || ApartFromLayout(ns)
  {
    hide Padded, ApartAt, ApartBelow;
    if !pretty || cfg.collapse {
      PaddedSame(ns, [], Start(pretty), cfg);
    } else {
      PaddedAtTop(ns, 0, [], Start(pretty), cfg);
      assert ns[0..] == ns;
    }
  }

  // ---------- documents ----------

  lemma FirstPrinted(v: string, tail: string, cfg: Config)
    requires tail != [] && tail[0] as int < 128
    ensures var s := Escaped(v, true, cfg) + tail;
            && (s[0] as int >= 128 ==> v != [] && v[0] == s[0] && s[1..] == Escaped(v[1..], true, cfg) + tail)
            && (v != [] && !IsWhiteSpace(v[0]) ==> !IsWhiteSpace(s[0]))
  {
  }

  /** A printed text looks like a byte order mark only if the text itself does. */
  lemma BomIsPrintedFromBom(v: string, tail: string, cfg: Config)
    requires tail != [] && tail[0] as int < 128 && StartsWith(Escaped(v, true, cfg) + tail, BOM)
    ensures StartsWith(v, BOM)
  {
    hide Escaped;
    assert BOM[0] as int >= 128 && BOM[1] as int >= 128 && BOM[2] as int >= 128;
    var s := Escaped(v, true, cfg) + tail;
    FirstPrinted(v, tail, cfg);
    assert s[1] == s[1..][0] && s[2] == s[1..][1];
    FirstPrinted(v[1..], tail, cfg);
    assert s[1..][1] == s[1..][1..][0];
    FirstPrinted(v[1..][1..], tail, cfg);
    assert v[1] == v[1..][0] && v[2] == v[1..][1..][0];
  }

  /** Nothing is lost in front of the first node. */
  lemma FrontIsKept(ns: seq<Node>, pretty: bool, cfg: Config)
    requires NormalDocument(false, ns, cfg)
    ensures var e := EmitNodes(ns, Start(pretty), [], cfg); e != [] && SkipWS(e) == e && !StartsWith(e, BOM)
  {
    hide EmitNode, EmitNodes, NormalNode, SkipWS, Escaped, NormalText, NormalNodes, LayoutAfter, Post, LayoutBlank;
    var n, p := ns[0], Start(pretty);
    var tail := EmitNodes(ns[1..], LayoutAfter(n, p), [], cfg);
    var e := EmitNode(n, p, tail, cfg);
    EmitFirst(ns, p, [], cfg);
    assert Lead(n, p) == [] && [] + e == e;
    assert BOM[0] != '<';
    if PlainText(n) {
      NormalFirst(ns, cfg);
      var x := BehindText(ns, p, [], cfg);
      LayoutFirst(Post(ns, p), x);
      TextPrinted(n, p, tail, cfg);
      FirstPrinted(n.value, tail, cfg);
      if StartsWith(e, BOM) {
        BomIsPrintedFromBom(n.value, tail, cfg);
      }
    } else {
      MarkupStarts(n, p, tail, cfg);
    }
    SkipNothing(e);
  }

  lemma LayoutFirst(b: string, x: string)
    requires LayoutBlank(b) && x != [] && x[0] == '<'
    ensures (b + x)[0] as int < 128
  {
  }

  lemma NormalFirst(ns: seq<Node>, cfg: Config)
    requires ns != [] && NormalNodes(ns, 1, cfg)
    ensures NoAdjacentText(ns) && (PlainText(ns[0]) ==> ns[0].value != [])
  {
  }

  lemma TextPrinted(n: Node, p: Layout, tail: string, cfg: Config)
    requires PlainText(n)
    ensures EmitNode(n, p, tail, cfg) == Escaped(n.value, true, cfg) + tail
  {
  }

  lemma DeclarationsComeFirst(ns: seq<Node>)
    requires forall i, j :: 0 <= i < j < |ns| && ns[j].Declaration? ==> ns[i].Declaration?
    ensures DeclarationsFit(true, [], ns)
  {
  }

  /** The whole document: for every normal document, with or without byte order mark, in both layouts and in every configuration, parsing
      the print yields the document with the layout that was written next to its texts, and so the document itself exactly if
      there is none or white space is collapsed. */
  lemma DocumentRoundTrip(bom: bool, ns: seq<Node>, pretty: bool, cfg: Config)
    requires NormalDocument(bom, ns, cfg)
    ensures ParseDocument(PrintDocument(bom, ns, pretty, cfg), cfg) == Doc(bom, Padded(ns, [], Start(pretty), cfg))
    ensures ParseDocument(PrintDocument(bom, ns, pretty, cfg), cfg) == Doc(bom, ns) <==> !pretty || cfg.collapse || ApartFromLayout(ns)
  {
    hide ParseContent, EmitNodes, NormalNodes, SkipWS, Padded, LayoutBlank, ApartFromLayout, MarkupNext;
    var p := Start(pretty);
    var e, read := EmitNodes(ns, p, [], cfg), Padded(ns, [], p, cfg);
    DeclarationsComeFirst(ns);
    NothingIsMarkup();
    LayoutIsBlank(ns[0], p, 0);
    ContentRoundTrip(ns, [], p, [], 1, true, [], cfg);
    assert [] + e == e && [] + read == read;
    EndOfContent(1, true, read, cfg);
    PaddedDocument(ns, pretty, cfg);
    if bom {
      Drop(BOM, e);
      SkipNothing(BOM + e);
      assert StartsWith(BOM + e, BOM);
      SomethingParsed(e, read, cfg);
    } else {
      FrontIsKept(ns, pretty, cfg);
    }
  }

  lemma NothingIsMarkup()
    ensures MarkupNext([])
  {
  }

  lemma EndOfContent(depth: nat, top: bool, acc: seq<Node>, cfg: Config)
    requires 1 <= depth < MAX_DEPTH
    ensures ParseContent([], depth, top, acc, cfg) == Ended(acc)
  {
  }

  lemma SomethingParsed(e: string, ns: seq<Node>, cfg: Config)
    requires ns != [] && ParseContent(e, 1, true, [], cfg) == Ended(ns)
    ensures e != []
  {
  }

  lemma SmallText(t: string, cfg: Config)
    requires t == "t"
    ensures NormalText(t, cfg) && Escaped(t, true, cfg) == t
  {
    var none: string := [];
    assert t[0] == 't' && !IsWhiteSpace(t[0]) && t + none == t && t[1..] == none;
    WordsSplit(t, none);
    NoWords(none);
    assert Words(t) == [t];
    assert Escape(none, true) == none;
  }

  /** The layouts the printer passes through inside an element at the top that holds a text and then an empty element. */
  lemma SmallLayout(ns: seq<Node>, p: Layout)
    requires |ns| == 2 && PlainText(ns[0]) && ns[1].Element? && ns[1].children == [] && p == Inside(Start(true))
    ensures var q := LayoutAfter(ns[0], p);
            && Lead(ns[0], p) == [] && Lead(ns[1], q) == "    " && Pre(ns[0], p) == [] && Pre(ns[1], q) == []
            && LayoutAfter(ns[1], q) == q && LayoutAfterAll(ns, p) == q && BeforeClose(q, 0) == []
  {
    var none: seq<Node> := [];
    var q := LayoutAfter(ns[0], p);
    assert LayoutAfterAll(none, Inside(q)) == Inside(q) && LayoutAfterAll(none, q) == q;
    assert LayoutAfter(ns[1], q) == q;
    assert ns[1..][0] == ns[1] && ns[1..][1..] == none;
    assert LayoutAfterAll(ns[1..], q) == LayoutAfterAll(none, LayoutAfter(ns[1], q));
    assert Indent(0) == [] && Indent(1) == "    " + Indent(0);
  }

  lemma SmallPrint(name: string, n: Node, p: Layout, tail: string, cfg: Config)
    requires n == Element(name, [], []) && AfterElement(p) == []
    ensures EmitNode(n, p, tail, cfg) == "<" + (name + ("/>" + tail))
  {
    EmitNoAttrs(ElementEnd(n, p, tail, cfg), cfg);
    assert [] + tail == tail;
  }

  /** An element behind a text: in pretty layout its indentation becomes part of the text. */
  lemma PrettyExample(cfg: Config)
    ensures var b := Element("b", [], []);
            var ns := [Element("a", [], [Text("t", false), b])];
            && NormalDocument(false, ns, cfg) && !ApartFromLayout(ns)
            && PrintDocument(false, ns, true, cfg) == "<a>t    <b/></a>\n"
            && ParseDocument("<a>t    <b/></a>\n", cfg)
                 == Doc(false, [Element("a", [], [Text(if cfg.collapse then "t" else "t    ", false), b])])
  {
    hide ParseDocument, NormalText, Escaped;
    var v: string := "t";
    var t, b := Text(v, false), Element("b", [], []);
    var a := Element("a", [], [t, b]);
    SmallText(v, cfg);
    SmallIsNormal(t, b, a, cfg);
    SmallDocument(t, b, a, cfg);
    SmallRead(t, b, a, cfg);
    DocumentRoundTrip(false, [a], true, cfg);
  }

  lemma SmallIsNormal(t: Node, b: Node, a: Node, cfg: Config)
    requires b == Element("b", [], []) && PlainText(t) && a == Element("a", [], [t, b]) && NormalText(t.value, cfg)
    ensures NormalDocument(false, [a], cfg) && !ApartFromLayout([a])
  {
    hide NormalText;
    var none: seq<Node> := [];
    var ns := [t, b];
    assert ValidName("a") && ValidName("b");
    assert NormalNode(b, 2, cfg) && NormalNode(t, 2, cfg);
    assert NormalNode(a, 1, cfg);
    assert PlainText(ns[0]) && ns[1].Element?;
    assert !TextsApart(ns);
    var top := [a];
    assert !ApartBelow(top[0]);
  }

  lemma SmallDocument(t: Node, b: Node, a: Node, cfg: Config)
    requires t == Text("t", false) && b == Element("b", [], []) && a == Element("a", [], [t, b]) && Escaped("t", true, cfg) == "t"
    ensures PrintDocument(false, [a], true, cfg) == "<a>t    <b/></a>\n"
  {
    hide Escaped, EmitNodes, EmitNode, LayoutAfter, LayoutAfterAll, EmitAttrs, ElementEnd;
    var p, top := Start(true), [a];
    var none: seq<Node> := [];
    var tail: string := [];
    assert top[1..] == none;
    EmitFirst(top, p, tail, cfg);
    EmitNone(LayoutAfter(a, p), tail, cfg);
    SmallInner(t, b, a, cfg);
    SmallOuter(a, p, tail, cfg);
    assert Indent(0) == [];
  }

  lemma SmallOuter(a: Node, p: Layout, tail: string, cfg: Config)
    requires a.Element? && a.name == "a" && a.attrs == [] && ElementEnd(a, p, tail, cfg) == ">t    <b/></a>\n"
    ensures EmitNode(a, p, tail, cfg) == "<a>t    <b/></a>\n"
  {
    hide ElementEnd, EmitAttrs;
    EmitNoAttrs(ElementEnd(a, p, tail, cfg), cfg);
  }

  lemma SmallInner(t: Node, b: Node, a: Node, cfg: Config)
    requires t == Text("t", false) && b == Element("b", [], []) && a == Element("a", [], [t, b]) && Escaped("t", true, cfg) == "t"
    ensures ElementEnd(a, Start(true), [], cfg) == ">t    <b/></a>\n"
  {
    hide Escaped, EmitNodes, EmitNode, LayoutAfter, LayoutAfterAll, Lead, BeforeClose;
    var q, ns := Inside(Start(true)), [t, b];
    SmallLayout(ns, q);
    var close := CloseTag("a", "\n");
    assert close == "</a>\n";
    SmallList(t, b, close, cfg);
    var none: string := [];
    assert BeforeClose(LayoutAfter(t, q), 0) == none && none + close == close;
    assert AfterElement(Start(true)) + [] == "\n";
  }

  lemma SmallList(t: Node, b: Node, close: string, cfg: Config)
    requires t == Text("t", false) && b == Element("b", [], []) && Escaped("t", true, cfg) == "t" && close == "</a>\n"
    ensures EmitNodes([t, b], Inside(Start(true)), close, cfg) == "t    <b/></a>\n"
  {
    hide Escaped, EmitNodes, EmitNode, LayoutAfter, LayoutAfterAll, Lead, BeforeClose;
    var q, ns, rest := Inside(Start(true)), [t, b], [b];
    var none: seq<Node> := [];
    SmallLayout(ns, q);
    var r := LayoutAfter(t, q);
    assert ns[1..] == rest && rest[1..] == none;
    EmitFirst(ns, q, close, cfg);
    EmitFirst(rest, r, close, cfg);
    EmitNone(LayoutAfter(b, r), close, cfg);
    SmallPrint("b", b, r, close, cfg);
    var tail := EmitNodes(rest, r, close, cfg);
    TextPrinted(t, q, tail, cfg);
    SmallTexts(close, tail);
  }

  lemma SmallTexts(close: string, tail: string)
    requires close == "</a>\n" && tail == "    " + ("<" + ("b" + ("/>" + close)))
    ensures [] + ("t" + tail) == "t    <b/></a>\n"
  {
  }

  lemma SmallRead(t: Node, b: Node, a: Node, cfg: Config)
    requires t == Text("t", false) && b == Element("b", [], []) && a == Element("a", [], [t, b])
    ensures Padded([a], [], Start(true), cfg) == [Element("a", [], [Text(if cfg.collapse then "t" else "t    ", false), b])]
  {
    hide LayoutAfter, LayoutAfterAll, Lead;
    var p, q, ns := Start(true), Inside(Start(true)), [t, b];
    var top, rest, none: seq<Node> := [a], [b], [];
    SmallLayout(ns, q);
    var r := LayoutAfter(t, q);
    assert top[1..] == none && ns[1..] == rest && rest[1..] == none;
    NothingPadded(Inside(r), cfg);
    assert PaddedNode(b, Pre(t, q), Post(rest, r), r, cfg) == b;
    assert Padded(rest, Pre(t, q), r, cfg) == [b];
    var x := Text(if cfg.collapse then "t" else "t    ", false);
    assert Post(ns, q) == "    ";
    assert PaddedNode(t, [], Post(ns, q), q, cfg) == x;
    assert Padded(ns, [], q, cfg) == [x] + [b];
    assert PaddedNode(a, [], Post(top, p), p, cfg) == Element("a", [], [x, b]);
    assert Padded(top[1..], Pre(a, p), LayoutAfter(a, p), cfg) == [];
  }
}
