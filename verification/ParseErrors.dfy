/** Which error a text that is no document ends in. */
module ParseErrors {
  import opened Texts
  import opened XmlUtil
  import opened XmlText
  import opened XmlSyntax
  import opened RoundTrip
  import opened ParsedTrees

  /** An error of the first node is the error of the document. */
  lemma FirstFails(s: string, e: XmlError, cfg: Config)
    requires s != [] && s[0] == '<' && ParseOne(s, 1, true, [], cfg) == Fail(e)
    ensures ParseDocument(s, cfg) == DocFail(e)
  {
    hide ParseOne, ParseContent, ParseDocument;
    ContentCases(s, 1, true, [], cfg);
    DocumentCases(s, cfg);
  }

  /** Nothing but blanks. */
  lemma NothingFails(s: string, cfg: Config)
    requires forall i :: 0 <= i < |s| ==> s[i] as int in {9, 10, 11, 12, 13, 32}
    ensures ParseDocument(s, cfg) == DocFail(ErrEmptyDocument)
  {
    hide ParseContent, SkipWS;
    BlankPart(s);
    var none: string := [];
    SkipOver(s, none);
    SkipNothing(none);
    assert s + none == s && |BOM| == 3;
  }

  lemma NeverEnds(s: string, term: string)
    requires term != [] && forall i :: 0 <= i < |s| ==> !(term <= s[i..])
    ensures Find(s, term).None?
  {
    forall i | 0 <= i < |s|
      ensures !StartsWith(s[i..], term)
    {
      StartsWithMeans(s[i..], term);
    }
    FindNone(s, term);
  }

  // ---------- markup that is never closed: the error of its kind ----------

  lemma UnknownOpens(s: string)
    requires !("--" <= s) && !("[CDATA[" <= s)
    ensures SkipWS("<!" + s) == "<!" + s && Identify("<!" + s).UnknownKind? && ("<!" + s)[2..] == s
  {
    hide SkipWS, Identify;
    var u := "<!" + s;
    NoBlank(u);
    Drop("<!", s);
    StartsWithMeans(u, "<!--");
    StartsWithMeans(u, "<![CDATA[");
    assert StartsWith(u, "<!");
    HeaderIs(u);
  }

  lemma CommentFails(s: string, cfg: Config)
    requires forall i :: 0 <= i < |s| ==> !("-->" <= s[i..])
    ensures ParseDocument("<!--" + s, cfg) == DocFail(ErrComment)
  {
    hide ParseOne, SkipWS, Find, Identify, ParseDocument;
    var u := "<!--" + s;
    NeverEnds(s, "-->");
    CommentHeader(s);
    ChildCases(u, 1, true, [], cfg);
    FirstFails(u, ErrComment, cfg);
  }

  lemma CDataFails(s: string, cfg: Config)
    requires forall i :: 0 <= i < |s| ==> !("]]>" <= s[i..])
    ensures ParseDocument("<![CDATA[" + s, cfg) == DocFail(ErrCData)
  {
    hide ParseOne, SkipWS, Find, Identify, ParseDocument;
    var u := "<![CDATA[" + s;
    NeverEnds(s, "]]>");
    CDataHeader(s);
    ChildCases(u, 1, true, [], cfg);
    FirstFails(u, ErrCData, cfg);
  }

  lemma DeclarationFails(s: string, cfg: Config)
    requires forall i :: 0 <= i < |s| ==> !("?>" <= s[i..])
    ensures ParseDocument("<?" + s, cfg) == DocFail(ErrDeclaration)
  {
    hide ParseOne, SkipWS, Find, Identify, ParseDocument;
    var u := "<?" + s;
    NeverEnds(s, "?>");
    DeclarationHeader(s);
    ChildCases(u, 1, true, [], cfg);
    FirstFails(u, ErrDeclaration, cfg);
  }

  lemma UnknownFails(s: string, cfg: Config)
    requires forall i :: 0 <= i < |s| ==> !(">" <= s[i..])
    requires !("--" <= s) && !("[CDATA[" <= s)
    ensures ParseDocument("<!" + s, cfg) == DocFail(ErrUnknown)
  {
    hide ParseOne, SkipWS, Find, Identify, ParseDocument;
    var u := "<!" + s;
    NeverEnds(s, ">");
    UnknownOpens(s);
    ChildCases(u, 1, true, [], cfg);
    FirstFails(u, ErrUnknown, cfg);
  }

  /** Text with nothing behind it, and with nothing behind the less-than sign that ends it. */
  lemma TextFails(s: string, cfg: Config)
    requires s != [] && s[0] as int !in {9, 10, 11, 12, 13, 32} && Without(s, '<') && s[0] as int < 128
    ensures ParseDocument(s, cfg) == DocFail(ErrText) && ParseDocument(s + "<", cfg) == DocFail(ErrParsing)
  {
    hide ParseOne, ParseContent, SkipWS, Find, ParseText, ParseDocument;
    var t := s + "<";
    BlankIs(s[0]);
    BlankIs(t[0]);
    assert s[0] != '<' && t[0] == s[0];
    NoMarkupIn(s);
    FindChar(s, '<', []);
    assert s + (['<'] + []) == t && "<" == ['<'];
    TextCases(s, cfg);
    TextCases(t, cfg);
    TextAlone(s, ErrText, cfg);
    TextAlone(t, ErrParsing, cfg);
  }

  lemma NoMarkupIn(s: string)
    requires Without(s, '<')
    ensures Find(s, "<").None?
  {
    forall i | 0 <= i < |s|
      ensures !StartsWith(s[i..], "<")
    {
      assert s[i..][0] == s[i];
    }
    FindNone(s, "<");
  }

  lemma TextAlone(s: string, e: XmlError, cfg: Config)
    requires s != [] && !IsWhiteSpace(s[0]) && s[0] != '<' && s[0] as int < 128 && ParseText(s, cfg) == Fail(e)
    ensures ParseDocument(s, cfg) == DocFail(e)
  {
    hide ParseOne, ParseContent, SkipWS, ParseText, Identify;
    SkipNothing(s);
    StartsNoMarkup(s);
    ChildCases(s, 1, true, [], cfg);
    ContentCases(s, 1, true, [], cfg);
    assert BOM[0] as int >= 128;
  }

  // ---------- tags ----------

  /** A tag that ParseHead refuses, or an element that does. */
  lemma TagFails(t: string, e: XmlError, cfg: Config)
    requires t != [] && t[0] != '?' && t[0] != '!' && ParseElement(t, 1, cfg) == Fail(e)
    ensures ParseDocument("<" + t, cfg) == DocFail(e)
  {
    hide ParseOne, ParseElement, SkipWS, Identify, ParseDocument;
    var u := "<" + t;
    NoBlank(u);
    Drop("<", t);
    HeaderIs(u);
    ChildCases(u, 1, true, [], cfg);
    FirstFails(u, e, cfg);
  }

  lemma OpenHead(name: string, inner: string, cfg: Config)
    requires NameText(name)
    ensures ParseHead(name + (">" + inner), cfg) == Head(Open, name, [], inner) && (name + (">" + inner))[0] != '?' && (name + (">" + inner))[0] != '!'
  {
    hide ParseHead;
    var none: seq<Attr> := [];
    NameTextIs(name);
    EmitNoAttrs(">" + inner, cfg);
    assert NormalAttrs(none, cfg);
    HeadRoundTrip(name, none, ">" + inner, cfg);
    Drop(">", inner);
    assert (name + (">" + inner))[0] == name[0];
  }

  /** An end tag of another name. */
  lemma MismatchFails(name: string, other: string, rest: string, cfg: Config)
    requires NameText(name) && NameText(other) && name != other
    ensures ParseDocument("<" + (name + (">" + ("</" + (other + (">" + rest))))), cfg) == DocFail(ErrMismatched)
  {
    hide ParseHead, ParseElement, ParseDocument, ParseContent, Level, FinishElement, NameText;
    var inner := CloseTag(other, rest);
    var none: string := [];
    OpenHead(name, inner, cfg);
    NameTextIs(other);
    EndTagEnds(none, other, rest, 2, false, [], cfg);
    assert none + inner == inner;
    var t := name + (">" + inner);
    ElementCases(t, 1, cfg);
    LevelCases(inner, 2, false, cfg);
    FinishCases(ParseHead(t, cfg), Level(inner, 2, false, cfg));
    TagFails(t, ErrMismatched, cfg);
  }

  /** An element that nothing closes: one error at the very end of the text, another one behind blanks. */
  lemma UnclosedElementFails(name: string, blanks: string, cfg: Config)
    requires NameText(name) && forall i :: 0 <= i < |blanks| ==> blanks[i] as int in {9, 10, 11, 12, 13, 32}
    ensures ParseDocument("<" + (name + (">" + blanks)), cfg) == DocFail(if blanks == [] then ErrMismatched else ErrParsing)
  {
    hide ParseHead, ParseElement, ParseDocument, ParseContent, Level, FinishElement, NameText, SkipWS;
    OpenHead(name, blanks, cfg);
    BlankPart(blanks);
    var none: string := [];
    SkipOver(blanks, none);
    SkipNothing(none);
    assert blanks + none == blanks;
    BlankParsed(blanks, 2, false, [], cfg);
    var t := name + (">" + blanks);
    ElementCases(t, 1, cfg);
    LevelCases(blanks, 2, false, cfg);
    FinishCases(ParseHead(t, cfg), Level(blanks, 2, false, cfg));
    TagFails(t, if blanks == [] then ErrMismatched else ErrParsing, cfg);
  }

  /** Two attributes of the same name. */
  lemma TwiceFails(name: string, a: string, v: string, w: string, rest: string, cfg: Config)
    requires NameText(name) && NameText(a) && Without(v, '"') && Without(w, '"')
    ensures ParseDocument("<" + (name + (" " + (a + ("=\"" + (v + ("\" " + (a + ("=\"" + (w + ("\"" + rest)))))))))), cfg) == DocFail(ErrAttribute)
  {
    hide ParseHead, ParseElement, ParseDocument, ParseAttributes, ParseAttribute, NameText, SkipWS, Value, NameLength;
    var s2 := a + ("=\"" + (w + ("\"" + rest)));
    var s1 := a + ("=\"" + (v + ("\" " + s2)));
    var x, y := Attr(a, Value(v, Flags(cfg.processEntities, true, false))), Attr(a, Value(w, Flags(cfg.processEntities, true, false)));
    QuotedIs(a, v, " " + s2, s1);
    QuotedIs(a, w, rest, s2);
    AttrRead(x, s1, " " + s2, cfg);
    AttrRead(y, s2, rest, cfg);
    OneBlank(s1);
    OneBlank(s2);
    AttributesCases(" " + s1, [], cfg);
    AttributesCases(" " + s2, [] + [x], cfg);
    var t := name + (" " + s1);
    HeadFails(name, " " + s1, ErrAttribute, cfg);
    ElementCases(t, 1, cfg);
    TagFails(t, ErrAttribute, cfg);
  }

  lemma OneBlank(s: string)
    requires s != [] && !IsWhiteSpace(s[0])
    ensures SkipWS(" " + s) == s
  {
    assert (" " + s)[1..] == s;
  }

  lemma QuotedIs(a: string, v: string, rest: string, s: string)
    requires NameText(a) && Without(v, '"') && s == a + ("=\"" + (v + ("\"" + rest)))
    ensures AttrText(s, a, [], [], '"', v, rest) && s != [] && !IsWhiteSpace(s[0])
  {
    hide NameText;
    NameTextIs(a);
    assert [] + (['"'] + (v + (['"'] + rest))) == "\"" + (v + ("\"" + rest));
    assert "=" + ("\"" + (v + ("\"" + rest))) == "=\"" + (v + ("\"" + rest));
    assert [] + ("=\"" + (v + ("\"" + rest))) == "=\"" + (v + ("\"" + rest));
    assert s[0] == a[0];
  }

  lemma HeadFails(name: string, rest: string, e: XmlError, cfg: Config)
    requires NameText(name) && rest != [] && rest[0] == ' ' && ParseAttributes(rest, [], cfg) == AttrsFail(e)
    ensures ParseHead(name + rest, cfg) == HeadFail(e) && (name + rest)[0] != '?' && (name + rest)[0] != '!'
  {
    hide ParseHead, ParseAttributes, NameLength, SkipWS, NameText;
    NameTextIs(name);
    var s := name + rest;
    assert s[0] == name[0];
    NameIs(name, rest);
    Drop(name, rest);
    SkipNothing(s);
    HeadCases(s, cfg);
    NoSlash(name);
  }

  /** A less-than sign in front of what is no tag, and a tag that goes on with what is no attribute. */
  lemma BadTagFails(c: char, name: string, rest: string, cfg: Config)
    requires NameText(name) && NameEnds([c]) && c as int !in {9, 10, 11, 12, 13, 32}
    ensures c != '?' && c != '!' && c != '/' ==> ParseDocument("<" + ([c] + rest), cfg) == DocFail(ErrParsing)
    ensures c != '>' && c != '/' ==> ParseDocument("<" + (name + (" " + ([c] + rest))), cfg) == DocFail(ErrElement)
  {
    hide ParseHead, ParseElement, ParseDocument, ParseAttributes, NameText, SkipWS, NameLength, ParseAttribute;
    var s := [c] + rest;
    BlankIs(c);
    NameTextIs([c]);
    NameCharIs(c);
    SkipNothing(s);
    if c != '?' && c != '!' && c != '/' {
      NoNameThere(s);
      HeadCases(s, cfg);
      ElementCases(s, 1, cfg);
      TagFails(s, ErrParsing, cfg);
    }
    if c != '>' && c != '/' {
      OneBlank(s);
      AttributesCases(" " + s, [], cfg);
      HeadFails(name, " " + s, ErrElement, cfg);
      ElementCases(name + (" " + s), 1, cfg);
      TagFails(name + (" " + s), ErrElement, cfg);
    }
  }

  lemma NoNameThere(s: string)
    requires s != [] && !IsNameStartChar(s[0])
    ensures NameLength(s) == 0
  {
  }

  /** A declaration behind something else. */
  lemma LateDeclarationFails(name: string, v: string, rest: string, cfg: Config)
    requires NameText(name) && Find(v, "?>").None?
    ensures ParseDocument("<" + (name + ("/>" + ("<?" + (v + ("?>" + rest))))), cfg) == DocFail(ErrDeclaration)
  {
    hide ParseOne, ParseHead, ParseElement, ParseContent, NameText, SkipWS, Identify, Find, Value, Borderless;
    var body := v + ("?>" + rest);
    var d := "<?" + body;
    var t := name + ("/>" + d);
    var u := "<" + t;
    var x := Element(name, [], []);
    ClosedTag(name, d, cfg);
    NoBlank(u);
    Drop("<", t);
    HeaderIs(u);
    ElementCases(t, 1, cfg);
    ChildCases(u, 1, true, [], cfg);
    ContentCases(u, 1, true, [], cfg);
    DeclarationHeader(body);
    ChildCases(d, 1, true, [] + [x], cfg);
    Terminators();
    FindTerminator(v, "?>", rest);
    ContentCases(d, 1, true, [] + [x], cfg);
    assert BOM[0] != '<';
  }

  lemma ClosedTag(name: string, rest: string, cfg: Config)
    requires NameText(name)
    ensures ParseHead(name + ("/>" + rest), cfg) == Head(Closed, name, [], rest) && (name + ("/>" + rest))[0] != '?' && (name + ("/>" + rest))[0] != '!'
  {
    hide ParseHead;
    var none: seq<Attr> := [];
    NameTextIs(name);
    EmitNoAttrs("/>" + rest, cfg);
    assert NormalAttrs(none, cfg);
    HeadRoundTrip(name, none, "/>" + rest, cfg);
    Drop("/>", rest);
    assert (name + ("/>" + rest))[0] == name[0];
  }
}
