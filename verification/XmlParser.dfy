/** The parser of tinyxml2 over its character buffer. Every string of the resulting tree is a StrPair that still points
    into that buffer, and names are flushed there while parsing goes on. Nodes are linked by the DOM (Dom.dfy); here a
    node is the value that the links will hold: its StrPairs, its attributes in order and its children in order. */
module XmlParser {
  import opened XmlUtil
  import opened XmlText
  import opened XmlSyntax
  import opened StrPairs

  datatype XAttr = XAttr(name: StrPair, value: StrPair)

  datatype XNode =
    | XElement(value: StrPair, attrs: seq<XAttr>, children: seq<XNode>)
    | XText(value: StrPair, cdata: bool)
    | XComment(value: StrPair)
    | XDeclaration(value: StrPair)
    | XUnknown(value: StrPair)

  // ---------- what the StrPairs of a parse hold ----------

  /** The closed range a StrPair was given in the buffer, and the string it stands for. */
  datatype Snap = Snap(start: nat, end: nat, view: string)

  /** `sp` is a pair into `mem`; if the buffer reads `s`, GetStr on it yields snap.view. */
  ghost predicate Holds(sp: StrPair, mem: array<char>, s: string, snap: Snap)
    reads sp
  {
    && sp.mem == mem && snap.start <= sp.start <= sp.end == snap.end < |s| && !sp.needsDelete
    && (if sp.needsFlush then NulFree(s[sp.start..sp.end]) else s[sp.end] == NUL)
    && (if sp.needsFlush then Value(s[sp.start..sp.end], sp.flags) else Cut(s[sp.start..sp.end])) == snap.view
  }

  ghost predicate Agrees(M: map<StrPair, Snap>, mem: array<char>, s: string)
    reads M.Keys
  {
    forall sp :: sp in M ==> Holds(sp, mem, s, M[sp])
  }

  /** All ranges lie in lo <= start <= end < hi. */
  ghost predicate InRange(M: map<StrPair, Snap>, lo: int, hi: int) {
    forall sp :: sp in M ==> lo <= M[sp].start <= M[sp].end < hi
  }

  /** The closed ranges of different pairs do not meet. */
  ghost predicate Disjoint(M: map<StrPair, Snap>) {
    forall a, b :: a in M && b in M && a != b ==> M[a].end < M[b].start || M[b].end < M[a].start
  }

  ghost predicate Extends(M: map<StrPair, Snap>, N: map<StrPair, Snap>) {
    forall sp :: sp in M ==> sp in N && N[sp] == M[sp]
  }

  lemma ViewOfHolds(sp: StrPair, mem: array<char>, snap: Snap)
    requires Holds(sp, mem, mem[..], snap)
    ensures sp.Valid() && sp.mem == mem && sp.View() == snap.view
  {
    assert mem[..][sp.start..sp.end] == mem[sp.start..sp.end];
  }

  lemma HoldsOfView(sp: StrPair, mem: array<char>, snap: Snap)
    requires sp.mem == mem && sp.Valid() && !sp.needsDelete && snap.start <= sp.start && snap.end == sp.end && sp.View() == snap.view
    ensures Holds(sp, mem, mem[..], snap)
  {
    assert mem[..][sp.start..sp.end] == mem[sp.start..sp.end];
  }

  lemma PrefixPart(s: string, t: string, a: nat, i: nat, j: nat)
    requires i <= j < a <= |s| == |t| && s[..a] == t[..a]
    ensures s[i..j] == t[i..j] && s[j] == t[j]
  {
    assert s[..a][i..j] == s[i..j] && t[..a][i..j] == t[i..j];
    assert s[..a][j] == s[j] && t[..a][j] == t[j];
  }

  lemma SuffixPart(s: string, t: string, a: nat, i: nat, j: nat)
    requires a <= i <= j < |s| == |t| && s[a..] == t[a..]
    ensures s[i..j] == t[i..j] && s[j] == t[j]
  {
    assert s[a..][i - a..j - a] == s[i..j] && t[a..][i - a..j - a] == t[i..j];
    assert s[a..][j - a] == s[j] && t[a..][j - a] == t[j];
  }

  /** Writes at or behind position `a` leave pairs before it alone. */
  lemma PrefixKept(M: map<StrPair, Snap>, mem: array<char>, s: string, s': string, a: nat)
    requires Agrees(M, mem, s) && a <= |s| == |s'| && s[..a] == s'[..a] && forall sp :: sp in M ==> M[sp].end < a
    ensures Agrees(M, mem, s')
  {
    hide Value, Cut;
    forall sp | sp in M
      ensures Holds(sp, mem, s', M[sp])
    {
      assert Holds(sp, mem, s, M[sp]);
      PrefixPart(s, s', a, sp.start, sp.end);
    }
  }

  /** Writes before position `a` leave pairs from it on alone. */
  lemma SuffixKept(M: map<StrPair, Snap>, mem: array<char>, s: string, s': string, a: nat)
    requires Agrees(M, mem, s) && a <= |s| == |s'| && s[a..] == s'[a..] && forall sp :: sp in M ==> a <= M[sp].start
    ensures Agrees(M, mem, s')
  {
    hide Value, Cut;
    forall sp | sp in M
      ensures Holds(sp, mem, s', M[sp])
    {
      assert Holds(sp, mem, s, M[sp]);
      SuffixPart(s, s', a, sp.start, sp.end);
    }
  }

  lemma Merge(M: map<StrPair, Snap>, N: map<StrPair, Snap>, mem: array<char>, s: string, lo: int, mid: int, hi: int)
    requires Agrees(M, mem, s) && Agrees(N, mem, s) && Disjoint(M) && Disjoint(N)
    requires InRange(M, lo, mid) && InRange(N, mid, hi) && lo <= mid <= hi
    ensures Agrees(M + N, mem, s) && Disjoint(M + N) && InRange(M + N, lo, hi)
    ensures Extends(M, M + N) && Extends(N, M + N)
  {
    hide Holds;
    KeysDiffer(M, N, mem, s, lo, mid, hi);
  }

  lemma KeysDiffer(M: map<StrPair, Snap>, N: map<StrPair, Snap>, mem: array<char>, s: string, lo: int, mid: int, hi: int)
    requires Agrees(M, mem, s) && Agrees(N, mem, s) && InRange(M, lo, mid) && InRange(N, mid, hi)
    ensures M.Keys !! N.Keys
  {
    forall sp | sp in M
      ensures sp !in N
    {
      assert Holds(sp, mem, s, M[sp]);
    }
  }

  // ---------- the tree the pairs show ----------

  ghost function Look(M: map<StrPair, Snap>, sp: StrPair): string {
    if sp in M then M[sp].view else []
  }

  ghost function ShownAttr(a: XAttr, M: map<StrPair, Snap>): Attr {
    Attr(Look(M, a.name), Look(M, a.value))
  }

  ghost function ShownAttrs(attrs: seq<XAttr>, M: map<StrPair, Snap>): (r: seq<Attr>)
    ensures |r| == |attrs| && forall i :: 0 <= i < |attrs| ==> r[i] == ShownAttr(attrs[i], M)
  {
    if attrs == [] then [] else [ShownAttr(attrs[0], M)] + ShownAttrs(attrs[1..], M)
  }

  ghost function Shown(x: XNode, M: map<StrPair, Snap>): Node
    decreases x, 1
  {
    match x
    case XElement(v, attrs, children) => Element(Look(M, v), ShownAttrs(attrs, M), ShownNodes(children, M))
    case XText(v, cdata) => Text(Look(M, v), cdata)
    case XComment(v) => Comment(Look(M, v))
    case XDeclaration(v) => Declaration(Look(M, v))
    case XUnknown(v) => Unknown(Look(M, v))
  }

  ghost function ShownNodes(xs: seq<XNode>, M: map<StrPair, Snap>): (r: seq<Node>)
    ensures |r| == |xs|
    decreases xs, 0
  {
    if xs == [] then [] else [Shown(xs[0], M)] + ShownNodes(xs[1..], M)
  }

  ghost predicate AttrsCovered(attrs: seq<XAttr>, M: map<StrPair, Snap>) {
    forall i :: 0 <= i < |attrs| ==> attrs[i].name in M && attrs[i].value in M
  }

  ghost predicate Covered(x: XNode, M: map<StrPair, Snap>)
    decreases x, 1
  {
    x.value in M && (x.XElement? ==> AttrsCovered(x.attrs, M) && NodesCovered(x.children, M))
  }

  ghost predicate NodesCovered(xs: seq<XNode>, M: map<StrPair, Snap>)
    decreases xs, 0
  {
    xs == [] || (Covered(xs[0], M) && NodesCovered(xs[1..], M))
  }

  lemma AttrsStay(attrs: seq<XAttr>, M: map<StrPair, Snap>, N: map<StrPair, Snap>)
    requires AttrsCovered(attrs, M) && Extends(M, N)
    ensures AttrsCovered(attrs, N) && ShownAttrs(attrs, N) == ShownAttrs(attrs, M)
  {
    assert forall i :: 0 <= i < |attrs| ==> ShownAttrs(attrs, N)[i] == ShownAttrs(attrs, M)[i];
  }

  lemma {:induction false} NodeStays(x: XNode, M: map<StrPair, Snap>, N: map<StrPair, Snap>)
    requires Covered(x, M) && Extends(M, N)
    ensures Covered(x, N) && Shown(x, N) == Shown(x, M)
    decreases x, 1
  {
    if x.XElement? {
      AttrsStay(x.attrs, M, N);
      NodesStay(x.children, M, N);
    }
  }

  lemma {:induction false} NodesStay(xs: seq<XNode>, M: map<StrPair, Snap>, N: map<StrPair, Snap>)
    requires NodesCovered(xs, M) && Extends(M, N)
    ensures NodesCovered(xs, N) && ShownNodes(xs, N) == ShownNodes(xs, M)
    decreases xs, 0
  {
    if xs != [] {
      NodeStays(xs[0], M, N);
      NodesStay(xs[1..], M, N);
    }
  }

  lemma {:induction false} ShownAppend(xs: seq<XNode>, x: XNode, M: map<StrPair, Snap>)
    requires NodesCovered(xs, M) && Covered(x, M)
    ensures NodesCovered(xs + [x], M) && ShownNodes(xs + [x], M) == ShownNodes(xs, M) + [Shown(x, M)]
  {
    hide Shown, Covered;
    if xs == [] {
      assert xs + [x] == [x] && [x][1..] == [];
    } else {
      ShownAppend(xs[1..], x, M);
      assert (xs + [x])[1..] == xs[1..] + [x] && (xs + [x])[0] == xs[0];
    }
  }

  lemma AttrsAppend(attrs: seq<XAttr>, a: XAttr, M: map<StrPair, Snap>)
    ensures ShownAttrs(attrs + [a], M) == ShownAttrs(attrs, M) + [ShownAttr(a, M)]
  {
    var l, r := ShownAttrs(attrs + [a], M), ShownAttrs(attrs, M) + [ShownAttr(a, M)];
    assert forall i :: 0 <= i < |l| ==> l[i] == r[i];
  }

  // ---------- attributes ----------

  /** A readable text from p up to the NUL at n. */
  ghost predicate Readable(mem: array<char>, p: nat, n: nat)
    reads mem
  {
    p <= n < mem.Length && mem[n] == NUL && NulFree(mem[p..n])
  }

  /** A read pointer p sees the text `t`. */
  ghost predicate Sees(mem: array<char>, p: nat, n: nat, t: string)
    reads mem
  {
    Readable(mem, p, n) && mem[p..n] == t
  }

  lemma SeesFacts(mem: array<char>, p: nat, n: nat, t: string)
    requires Sees(mem, p, n, t)
    ensures p + |t| == n < mem.Length && mem[n] == NUL && NulFree(t)
    ensures t == [] <==> mem[p] == NUL
    ensures t != [] ==> t[0] == mem[p] && mem[p + 1..n] == t[1..] && (|t| > 1 ==> t[1] == mem[p + 1]) && (|t| == 1 ==> mem[p + 1] == NUL)
  {
  }

  lemma SeesMore(mem: array<char>, p: nat, n: nat, t: string, k: nat)
    requires Sees(mem, p, n, t) && k <= |t|
    ensures Sees(mem, p + k, n, t[k..])
  {
  }

  method Skip(mem: array<char>, p: nat, ghost n: nat, ghost t: string) returns (q: nat)
    requires Sees(mem, p, n, t)
    ensures p <= q <= n && Sees(mem, q, n, SkipWS(t)) && q + |SkipWS(t)| == n
  {
    q := SkipWhiteSpace(mem, p, n);
    assert mem[q..n] == mem[p..n][q - p..];
  }

  /** XMLAttribute::ParseDeep. */
  method ParseAttributeDeep(mem: array<char>, p: nat, cfg: Config, ghost n: nat, ghost t: string)
    returns (q: Ptr, a: XAttr, ghost M: map<StrPair, Snap>)
    requires Sees(mem, p, n, t)
    ensures fresh(a.name) && fresh(a.value)
    ensures var r := XmlSyntax.ParseAttribute(t, cfg);
            && (r.AttrFail? ==> q == Null)
            && (r.AttrOk? ==>
                  && q.At? && p < q.index && Sees(mem, q.index, n, r.rest)
                  && ShownAttr(a, M) == r.attr && AttrsCovered([a], M) && M.Keys == {a.name, a.value}
                  && Agrees(M, mem, mem[..]) && Disjoint(M) && InRange(M, p, q.index)
                  && a.name.needsFlush && a.name.flags == RAW && M[a.name].end < M[a.value].start)
  {
    hide XmlSyntax.ParseAttribute, Agrees, Disjoint, InRange, Sees, Record, Recorded, PairRead, ShownAttr, AttrsCovered;
    var name := new StrPair();
    var value := new StrPair();
    a, M := XAttr(name, value), map[];
    q := AttributeParts(mem, p, name, value, cfg, n, t);
    if q.At? {
      AreValid(name, value, mem, p, q.index, XmlSyntax.ParseAttribute(t, cfg).attr);
      M := Recorded(name, value);
      TwoPairs(name, value, mem, p, q.index, XmlSyntax.ParseAttribute(t, cfg).attr);
    }
  }

  method AttributeParts(mem: array<char>, p: nat, name: StrPair, value: StrPair, cfg: Config, ghost n: nat, ghost t: string)
    returns (q: Ptr)
    requires Sees(mem, p, n, t) && name != value
    modifies name, value
    ensures var r := XmlSyntax.ParseAttribute(t, cfg);
            && (r.AttrFail? ==> q == Null)
            && (r.AttrOk? ==>
                  && q.At? && p < q.index && Sees(mem, q.index, n, r.rest)
                  && PairRead(name, mem, p, name.end + 1, r.attr.name) && name.needsFlush && name.flags == RAW
                  && PairRead(value, mem, name.end + 1, q.index, r.attr.value))
  {
    hide Value, Cut, Find, NameLength, OpenQuote, XmlSyntax.ParseAttribute, PairRead, Sees;
    AttributeCases(t, cfg);
    var at := AttributeName(mem, p, name, n, t);
    if at == Null || mem[at.index] == NUL {
      return Null;
    }
    ghost var k := at.index - p;
    var quote := FindQuote(mem, at.index, n, t[k..]);
    if quote == Null {
      return Null;
    }
    q := ParseQuoted(mem, quote.index, value, cfg, n, OpenQuote(t[k..]).value);
    if q.At? {
      PairReadFrom(value, mem, quote.index + 1, name.end + 1, q.index, XmlSyntax.ParseAttribute(t, cfg).attr.value);
    }
  }

  method AttributeName(mem: array<char>, p: nat, name: StrPair, ghost n: nat, ghost t: string) returns (at: Ptr)
    requires Sees(mem, p, n, t)
    modifies name
    ensures var k := NameLength(t);
            && (k == 0 ==> at == Null)
            && (k > 0 ==>
                  && at == At(p + k) && p + k < mem.Length && Sees(mem, p + k, n, t[k..]) && (mem[p + k] == NUL <==> k == |t|)
                  && PairRead(name, mem, p, p + k + 1, t[..k]) && name.needsFlush && name.flags == RAW && name.end == p + k)
  {
    hide Value, Cut, NameLength;
    at := name.ParseName(mem, p, n);
    if at.At? {
      SeesMore(mem, p, n, t, at.index - p);
      SeesFacts(mem, at.index, n, t[at.index - p..]);
    }
  }

  lemma PairReadFrom(sp: StrPair, mem: array<char>, lo: int, lo': int, hi: int, view: string)
    requires PairRead(sp, mem, lo, hi, view) && lo' <= lo
    ensures PairRead(sp, mem, lo', hi, view)
  {
    hide Value, Cut;
  }

  ghost function Record(sp: StrPair): Snap
    reads sp, sp.mem
    requires sp.Valid() && sp.mem != null
  {
    Snap(sp.start, sp.end, sp.View())
  }

  ghost function Recorded(name: StrPair, value: StrPair): map<StrPair, Snap>
    reads name, name.mem, value, value.mem
    requires name.Valid() && name.mem != null && value.Valid() && value.mem != null
  {
    map[name := Record(name), value := Record(value)]
  }

  lemma AreValid(name: StrPair, value: StrPair, mem: array<char>, lo: int, hi: int, shown: Attr)
    requires PairRead(name, mem, lo, name.end + 1, shown.name) && PairRead(value, mem, name.end + 1, hi, shown.value)
    ensures name.Valid() && name.mem == mem && value.Valid() && value.mem == mem
  {
  }

  lemma TwoPairs(name: StrPair, value: StrPair, mem: array<char>, lo: int, hi: int, shown: Attr)
    requires PairRead(name, mem, lo, name.end + 1, shown.name) && PairRead(value, mem, name.end + 1, hi, shown.value)
    ensures var M := Recorded(name, value);
            && M.Keys == {name, value} && Agrees(M, mem, mem[..]) && Disjoint(M) && InRange(M, lo, hi)
            && M[name] == Record(name) && M[value] == Record(value) && name != value && M[name].end < M[value].start
            && ShownAttr(XAttr(name, value), M) == shown && AttrsCovered([XAttr(name, value)], M)
  {
    hide Holds, Value, Cut;
    var M := Recorded(name, value);
    HoldsOfView(name, mem, M[name]);
    HoldsOfView(value, mem, M[value]);
  }

  /** Blanks, '=', blanks, and then a quote. */
  method FindQuote(mem: array<char>, p: nat, ghost n: nat, ghost t: string) returns (q: Ptr)
    requires Sees(mem, p, n, t)
    ensures OpenQuote(t).None? ==> q == Null
    ensures OpenQuote(t).Some? ==> q.At? && p < q.index && Sees(mem, q.index, n, OpenQuote(t).value)
  {
    hide SkipWS;
    var eq := Skip(mem, p, n, t);
    ghost var e := SkipWS(t);
    SeesFacts(mem, eq, n, e);
    if mem[eq] != '=' {
      return Null;
    }
    SeesMore(mem, eq, n, e, 1);
    var quote := Skip(mem, eq + 1, n, e[1..]);
    SeesFacts(mem, quote, n, SkipWS(e[1..]));
    if mem[quote] != '"' && mem[quote] != '\'' {
      return Null;
    }
    return At(quote);
  }

  /** The value between the quote at p and the next one like it. */
  method ParseQuoted(mem: array<char>, p: nat, value: StrPair, cfg: Config, ghost n: nat, ghost u: string) returns (q: Ptr)
    requires Sees(mem, p, n, u) && u != [] && u[0] != NUL
    modifies value
    ensures var r := Find(u[1..], [u[0]]);
            && (r.None? ==> q == Null)
            && (r.Some? ==>
                  && q.At? && p < q.index && Sees(mem, q.index, n, u[1..][r.value + 1..])
                  && PairRead(value, mem, p + 1, q.index, Value(u[1..][..r.value], AttrFlags(cfg))))
  {
    hide Value, Find;
    SeesFacts(mem, p, n, u);
    SeesMore(mem, p, n, u, 1);
    var endTag := [mem[p]];
    q := value.ParseText(mem, p + 1, endTag, AttrFlags(cfg), n);
    if q.At? {
      SeesMore(mem, p + 1, n, u[1..], Find(u[1..], [u[0]]).value + 1);
    }
  }

  // ---------- flushing while parsing ----------

  /** A flushed pair is the C string at its start. */
  lemma CStringAt(sp: StrPair, mem: array<char>, snap: Snap)
    requires Holds(sp, mem, mem[..], snap) && !sp.needsFlush
    ensures sp.start + |snap.view| <= sp.end < mem.Length && mem[sp.start + |snap.view|] == NUL
    ensures mem[sp.start..sp.start + |snap.view|] == snap.view && NulFree(snap.view)
  {
    var c, w := snap.view, mem[..][sp.start..sp.end];
    assert mem[sp.start..sp.end] == w;
    assert w[..|c|] == c;
    assert mem[sp.start..sp.start + |c|] == w[..|c|];
    assert |c| < |w| ==> w[|c|] == mem[sp.start + |c|];
  }

  /** Equality of two strings that have been flushed before. */
  method SameString(mem: array<char>, x: StrPair, y: StrPair, ghost a: Snap, ghost b: Snap) returns (same: bool)
    requires Holds(x, mem, mem[..], a) && Holds(y, mem, mem[..], b) && !x.needsFlush && !y.needsFlush
    ensures same <==> a.view == b.view
  {
    hide Holds, NulFree;
    CStringAt(x, mem, a);
    CStringAt(y, mem, b);
    same := StringEqual(mem, x.start, y.start, x.start + |a.view|, y.start + |b.view|);
  }

  lemma NameShown(attrs: seq<XAttr>, M: map<StrPair, Snap>, i: nat)
    requires i < |attrs|
    ensures Look(M, attrs[i].name) in Names(ShownAttrs(attrs, M))
  {
    assert ShownAttrs(attrs, M)[i] == ShownAttr(attrs[i], M);
    assert ShownAttr(attrs[i], M) in ShownAttrs(attrs, M);
  }

  /** XMLElement::FindAttribute among the attributes read so far, whose names have all been flushed. */
  method HasAttribute(mem: array<char>, attrs: seq<XAttr>, name: StrPair, ghost M: map<StrPair, Snap>, ghost snap: Snap)
    returns (found: bool)
    requires Agrees(M, mem, mem[..]) && AttrsCovered(attrs, M) && forall i :: 0 <= i < |attrs| ==> !attrs[i].name.needsFlush
    requires Holds(name, mem, mem[..], snap) && !name.needsFlush
    ensures found <==> snap.view in Names(ShownAttrs(attrs, M))
  {
    hide Holds;
    for i := 0 to |attrs|
      invariant forall j :: 0 <= j < i ==> Look(M, attrs[j].name) != snap.view
    {
      var same := SameString(mem, attrs[i].name, name, M[attrs[i].name], snap);
      if same {
        NameShown(attrs, M, i);
        return true;
      }
    }
    return false;
  }

  /** Flushing a name that lies in a gap between the pairs of M (before it) and those of N (behind it). */
  method FlushName(mem: array<char>, name: StrPair, ghost M: map<StrPair, Snap>, ghost N: map<StrPair, Snap>, ghost snap: Snap)
    requires Agrees(M, mem, mem[..]) && Agrees(N, mem, mem[..]) && Holds(name, mem, mem[..], snap)
    requires name !in M && name !in N && !name.flags.collapse
    requires forall sp :: sp in M ==> M[sp].end < snap.start
    requires forall sp :: sp in N ==> snap.end < N[sp].start
    modifies name, mem
    ensures Agrees(M, mem, mem[..]) && Agrees(N, mem, mem[..]) && Holds(name, mem, mem[..], snap)
    ensures !name.needsFlush && !name.flags.collapse
    ensures mem[..snap.start] == old(mem[..snap.start]) && mem[snap.end + 1..] == old(mem[snap.end + 1..])
  {
    hide Agrees, Cut, Value;
    ghost var s := mem[..];
    ViewOfHolds(name, mem, snap);
    ghost var from := name.start;
    var _ := name.GetStr();
    assert Agrees(M, mem, s) && Agrees(N, mem, s);
    assert mem[..from] == s[..from] && mem[snap.end + 1..] == s[snap.end + 1..];
    assert mem[..][..snap.start] == mem[..from][..snap.start] == s[..snap.start];
    assert mem[..][snap.end + 1..] == s[snap.end + 1..];
    PrefixKept(M, mem, s, mem[..], snap.start);
    SuffixKept(N, mem, s, mem[..], snap.end + 1);
    HoldsOfView(name, mem, snap);
  }

  lemma SeesTail(mem: array<char>, q: nat, n: nat, t: string)
    requires Sees(mem, q, n, t)
    ensures q <= n < mem.Length && NulFree(t) && mem[q..][..n - q] == t && mem[q..][n - q] == NUL
  {
  }

  lemma SeesKept(mem: array<char>, q: nat, n: nat, t: string, tail: string)
    requires q <= n < mem.Length && mem[q..] == tail && NulFree(t) && tail[..n - q] == t && tail[n - q] == NUL
    ensures Sees(mem, q, n, t)
  {
    assert mem[q..n] == tail[..n - q] && mem[n] == tail[n - q];
  }

  /** Flushes the name of the attribute just read (pairs N, in [at, q)) and looks for it among those before (pairs M). */
  method FlushAndFind(mem: array<char>, a: XAttr, attrs: seq<XAttr>, ghost M: map<StrPair, Snap>, ghost N: map<StrPair, Snap>,
                      ghost lo: int, ghost at: nat, ghost q: nat)
    returns (found: bool)
    requires Agrees(M, mem, mem[..]) && Agrees(N, mem, mem[..]) && InRange(M, lo, at) && InRange(N, at, q) && q <= mem.Length
    requires N.Keys == {a.name, a.value} && N[a.name].end < N[a.value].start && a.name.flags == RAW
    requires AttrsCovered(attrs, M) && forall i :: 0 <= i < |attrs| ==> !attrs[i].name.needsFlush
    modifies a.name, mem
    ensures Agrees(M, mem, mem[..]) && Agrees(N, mem, mem[..]) && !a.name.needsFlush
    ensures found <==> N[a.name].view in Names(ShownAttrs(attrs, M))
    ensures mem[..at] == old(mem[..at]) && mem[q..] == old(mem[q..])
  {
    hide Holds, Names, ShownAttrs;
    ghost var snap, V := N[a.name], map[a.value := N[a.value]];
    KeysDiffer(M, N, mem, mem[..], lo, at, q);
    ghost var s := mem[..];
    FlushName(mem, a.name, M, V, snap);
    assert mem[..at] == mem[..snap.start][..at] == s[..snap.start][..at] by {
      assert s[..snap.start] == old(mem[..snap.start]);
    }
    assert mem[q..] == mem[snap.end + 1..][q - snap.end - 1..];
    assert old(mem[q..]) == old(mem[snap.end + 1..])[q - snap.end - 1..];
    assert forall sp :: sp in N ==> sp == a.name || sp in V;
    found := HasAttribute(mem, attrs, a.name, M, snap);
  }

  lemma NewAttribute(attrs: seq<XAttr>, a: XAttr, M: map<StrPair, Snap>, N: map<StrPair, Snap>, mem: array<char>, s: string,
                     lo: int, mid: int, hi: int)
    requires Agrees(M, mem, s) && Agrees(N, mem, s) && Disjoint(M) && Disjoint(N)
    requires InRange(M, lo, mid) && InRange(N, mid, hi) && lo <= mid <= hi
    requires AttrsCovered(attrs, M) && AttrsCovered([a], N)
    ensures Agrees(M + N, mem, s) && Disjoint(M + N) && InRange(M + N, lo, hi)
    ensures AttrsCovered(attrs + [a], M + N)
    ensures ShownAttrs(attrs + [a], M + N) == ShownAttrs(attrs, M) + [ShownAttr(a, N)]
  {
    hide Agrees, Disjoint, InRange, ShownAttrs;
    Merge(M, N, mem, s, lo, mid, hi);
    AttrsStay(attrs, M, M + N);
    AttrsAppend(attrs, a, M + N);
    assert [a][0] == a;
  }

  lemma SkipAgain(s: string)
    ensures |SkipWS(s)| <= |s| && (|SkipWS(s)| == |s| ==> SkipWS(s) == s)
  {
  }

  /** ParseName with everything the rest of the tag needs. */
  method NameOf(mem: array<char>, p: nat, value: StrPair, ghost n: nat, ghost u: string) returns (q: Ptr, ghost snap: Snap)
    requires Sees(mem, p, n, u)
    modifies value
    ensures NameLength(u) == 0 ==> q == Null
    ensures var k := NameLength(u);
            k > 0 ==>
              && q == At(p + k) && p + k < mem.Length && Sees(mem, p + k, n, u[k..]) && (u[k..] != [] ==> !IsNameStartChar(u[k..][0]))
              && snap == Snap(p, p + k, u[..k]) && Holds(value, mem, mem[..], snap) && !value.flags.collapse
  {
    hide Value, Cut;
    SeesFacts(mem, p, n, u);
    snap := Snap(0, 0, []);
    q := value.ParseName(mem, p, n);
    if q.At? {
      SeesMore(mem, p, n, u, q.index - p);
      snap := Record(value);
      HoldsOfView(value, mem, snap);
    }
  }

  // ---------- what has been read ----------

  /** `sp` holds `view` and lies in lo <= start <= end < hi. */
  ghost predicate PairRead(sp: StrPair, mem: array<char>, lo: int, hi: int, view: string)
    reads sp, mem
  {
    sp.mem == mem && sp.Valid() && !sp.needsDelete && lo <= sp.start && sp.end < hi && sp.View() == view
  }

  /** A tag with what was read behind it: the pairs in M lie in [lo, hi), the tag's name before all others. */
  ghost predicate ElementRead(mem: array<char>, s: string, lo: int, hi: int, value: StrPair, attrs: seq<XAttr>, children: seq<XNode>,
                              M: map<StrPair, Snap>, name: string, shown: seq<Attr>, nodes: seq<Node>)
    reads M.Keys
  {
    && value in M && M[value].view == name && !value.flags.collapse
    && AttrsCovered(attrs, M) && ShownAttrs(attrs, M) == shown && NodesCovered(children, M) && ShownNodes(children, M) == nodes
    && Agrees(M, mem, s) && Disjoint(M) && InRange(M, lo, hi)
    && forall sp :: sp in M && sp != value ==> M[value].end < M[sp].start
  }

  ghost predicate NodeRead(mem: array<char>, s: string, lo: int, hi: int, x: XNode, M: map<StrPair, Snap>, node: Node)
    reads M.Keys
  {
    Covered(x, M) && Shown(x, M) == node && Agrees(M, mem, s) && Disjoint(M) && InRange(M, lo, hi)
  }

  ghost predicate NodesRead(mem: array<char>, s: string, lo: int, hi: int, xs: seq<XNode>, M: map<StrPair, Snap>, nodes: seq<Node>)
    reads M.Keys
  {
    lo <= hi && NodesCovered(xs, M) && ShownNodes(xs, M) == nodes && Agrees(M, mem, s) && Disjoint(M) && InRange(M, lo, hi)
  }

  /** Where the pairs of what is read from p on may begin: the text before p ends at p itself when a '<' stands there. */
  ghost function Edge(p: nat, t: string): nat {
    if t != [] && t[0] == '<' then p + 1 else p
  }

  lemma NodesKept(mem: array<char>, s: string, s': string, lo: int, hi: nat, xs: seq<XNode>, M: map<StrPair, Snap>, nodes: seq<Node>)
    requires NodesRead(mem, s, lo, hi, xs, M, nodes) && hi <= |s| == |s'| && s[..hi] == s'[..hi]
    ensures NodesRead(mem, s', lo, hi, xs, M, nodes)
  {
    hide Holds, ShownNodes, NodesCovered;
    PrefixKept(M, mem, s, s', hi);
  }

  lemma AddNode(mem: array<char>, s: string, lo: int, mid: int, hi: int, xs: seq<XNode>, x: XNode, M: map<StrPair, Snap>, N: map<StrPair, Snap>,
                nodes: seq<Node>, node: Node)
    requires NodesRead(mem, s, lo, mid, xs, M, nodes) && NodeRead(mem, s, mid, hi, x, N, node) && mid <= hi
    ensures NodesRead(mem, s, lo, hi, xs + [x], M + N, nodes + [node])
  {
    hide Agrees, Disjoint, InRange, ShownNodes, NodesCovered, Shown, Covered;
    Merge(M, N, mem, s, lo, mid, hi);
    NodesStay(xs, M, M + N);
    NodeStays(x, N, M + N);
    ShownAppend(xs, x, M + N);
  }

  lemma AddChildren(mem: array<char>, s: string, lo: int, mid: int, hi: int, value: StrPair, attrs: seq<XAttr>, children: seq<XNode>,
                    M: map<StrPair, Snap>, N: map<StrPair, Snap>, name: string, shown: seq<Attr>, nodes: seq<Node>)
    requires ElementRead(mem, s, lo, mid, value, attrs, [], M, name, shown, []) && NodesRead(mem, s, mid, hi, children, N, nodes)
    requires lo <= mid
    ensures ElementRead(mem, s, lo, hi, value, attrs, children, M + N, name, shown, nodes)
  {
    hide Holds, ShownNodes, NodesCovered, ShownAttrs, AttrsCovered;
    Merge(M, N, mem, s, lo, mid, hi);
    KeysDiffer(M, N, mem, s, lo, mid, hi);
    NodesStay(children, N, M + N);
    AttrsStay(attrs, M, M + N);
  }

  lemma ElementKept(mem: array<char>, s: string, s': string, lo: int, hi: nat, value: StrPair, attrs: seq<XAttr>, children: seq<XNode>,
                    M: map<StrPair, Snap>, name: string, shown: seq<Attr>, nodes: seq<Node>)
    requires ElementRead(mem, s, lo, hi, value, attrs, children, M, name, shown, nodes) && hi <= |s| == |s'| && s[..hi] == s'[..hi]
    ensures ElementRead(mem, s', lo, hi, value, attrs, children, M, name, shown, nodes)
  {
    hide Holds, ShownNodes, NodesCovered, ShownAttrs, AttrsCovered;
    PrefixKept(M, mem, s, s', hi);
  }

  lemma ElementNode(mem: array<char>, s: string, lo: int, hi: int, value: StrPair, attrs: seq<XAttr>, children: seq<XNode>,
                    M: map<StrPair, Snap>, name: string, shown: seq<Attr>, nodes: seq<Node>)
    requires ElementRead(mem, s, lo, hi, value, attrs, children, M, name, shown, nodes)
    ensures NodeRead(mem, s, lo, hi, XElement(value, attrs, children), M, Element(name, shown, nodes))
  {
    hide Agrees, Disjoint, InRange, ShownNodes, NodesCovered, ShownAttrs, AttrsCovered;
  }

  /** The node that a leaf shows. */
  ghost function Leaf(x: XNode, view: string): Node {
    match x
    case XElement(_, _, _) => Element(view, [], [])
    case XText(_, cdata) => Text(view, cdata)
    case XComment(_) => Comment(view)
    case XDeclaration(_) => Declaration(view)
    case XUnknown(_) => Unknown(view)
  }

  lemma LeafRead(mem: array<char>, lo: int, hi: int, x: XNode, view: string)
    requires PairRead(x.value, mem, lo, hi, view) && !x.XElement?
    ensures NodeRead(mem, mem[..], lo, hi, x, map[x.value := Record(x.value)], Leaf(x, view))
  {
    hide Holds, Value, Cut;
    HoldsOfView(x.value, mem, Record(x.value));
  }

  // ---------- the kinds of node ----------

  /** XMLDocument::Identify: the kind of the next node and where it begins; text begins at the blanks before it. */
  method IdentifyNode(mem: array<char>, p: nat, ghost n: nat, ghost t: string) returns (kind: Option<Kind>, q: nat)
    requires Sees(mem, p, n, t)
    ensures var u := SkipWS(t);
            if u == [] then kind.None?
            else kind == Some(XmlSyntax.Identify(u)) && Edge(p, t) <= q
                 && (kind.value.TextKind? ==> q == p && t != [] && t[0] != '<')
                 && (!kind.value.TextKind? ==> p < q && Sees(mem, q, n, u[HeaderLength(kind.value)..]))
  {
    hide SkipWS, NulFree, StartsWith, XmlSyntax.Identify, Sees;
    q := Skip(mem, p, n, t);
    ghost var u := SkipWS(t);
    SeesFacts(mem, q, n, u);
    if mem[q] == NUL {
      return None, q;
    }
    var k := Header(mem, q, n, u);
    if k.TextKind? {
      TextStart(t);
      return Some(k), p;
    }
    SeesMore(mem, q, n, u, HeaderLength(k));
    return Some(k), q + HeaderLength(k);
  }

  method Header(mem: array<char>, p: nat, ghost n: nat, ghost u: string) returns (k: Kind)
    requires Sees(mem, p, n, u) && u != []
    ensures k == XmlSyntax.Identify(u)
  {
    hide StartsWith;
    HeadersNulFree();
    var found := StartsWithAt(mem, p, "<?", n);
    if found {
      return DeclarationKind;
    }
    found := StartsWithAt(mem, p, "<!--", n);
    if found {
      return CommentKind;
    }
    found := StartsWithAt(mem, p, "<![CDATA[", n);
    if found {
      return CDataKind;
    }
    found := StartsWithAt(mem, p, "<!", n);
    if found {
      return UnknownKind;
    }
    found := StartsWithAt(mem, p, "<", n);
    return if found then ElementKind else TextKind;
  }

  lemma HeadersNulFree()
    ensures NulFree("<?") && NulFree("<!--") && NulFree("<![CDATA[") && NulFree("<!") && NulFree("<")
    ensures NulFree("?>") && NulFree("-->") && NulFree("]]>") && NulFree(">")
  {
  }

  // ---------- levels ----------

  /** How one round of the loop in XMLNode::ParseDeep ends. */
  datatype Round = Stop | Return | Next(node: XNode)

  /** The end tag of a parent element, as its last child hands it over. */
  ghost predicate EndTagRead(sp: StrPair, mem: array<char>, lo: int, hi: int, name: string)
    reads sp, mem
  {
    PairRead(sp, mem, lo, hi, name) && !sp.flags.collapse && sp.start < sp.end
  }

  lemma NonEmptyView(sp: StrPair, mem: array<char>, lo: int, hi: int, view: string)
    requires PairRead(sp, mem, lo, hi, view) && view != []
    ensures sp.start < sp.end
  {
    hide Collapse;
    if sp.start == sp.end {
      assert mem[sp.start..sp.end] == [];
      EmptyView(sp.flags);
    }
  }

  lemma EmptyView(f: Flags)
    ensures XmlText.Value([], f) == [] && Cut([]) == []
  {
  }

  lemma {:induction false} ShownKinds(xs: seq<XNode>, M: map<StrPair, Snap>, i: nat)
    requires i < |xs|
    ensures ShownNodes(xs, M)[i].Declaration? <==> xs[i].XDeclaration?
  {
    if i > 0 {
      ShownKinds(xs[1..], M, i - 1);
    }
  }

  /** A declaration is where it may be: at the top, with nothing but declarations before it. */
  method WellLocated(top: bool, xs: seq<XNode>, ghost M: map<StrPair, Snap>) returns (b: bool)
    ensures b == DeclarationAllowed(top, ShownNodes(xs, M))
  {
    hide ShownNodes;
    if xs == [] {
      assert ShownNodes(xs, M) == [];
    } else {
      ShownKinds(xs, M, 0);
      ShownKinds(xs, M, |xs| - 1);
    }
    b := top && (xs == [] || (xs[0].XDeclaration? && xs[|xs| - 1].XDeclaration?));
  }

  /** The end tag and the element's own name are flushed and compared. */
  method SameEndTag(mem: array<char>, value: StrPair, endTag: StrPair, ghost attrs: seq<XAttr>, ghost children: seq<XNode>,
                    ghost lo: nat, ghost q: nat, ghost M: map<StrPair, Snap>, ghost name: string, ghost endName: string,
                    ghost shown: seq<Attr>, ghost nodes: seq<Node>)
    returns (same: bool)
    requires EndTagRead(endTag, mem, lo, q, endName) && q <= mem.Length && endTag !in M
    requires ElementRead(mem, mem[..], lo, endTag.start, value, attrs, children, M, name, shown, nodes)
    modifies value, endTag, mem
    ensures ElementRead(mem, mem[..], lo, q, value, attrs, children, M, name, shown, nodes)
    ensures same <==> endName == name
    ensures mem[..lo] == old(mem[..lo]) && mem[q..] == old(mem[q..])
  {
    hide Holds, Value, Cut, ShownAttrs, ShownNodes, AttrsCovered, NodesCovered, Disjoint;
    ghost var e, v, s := Record(endTag), M[value], mem[..];
    ghost var R := (M - {value})[endTag := e];
    HoldsOfView(endTag, mem, e);
    FlushName(mem, endTag, M, map[], e);
    ghost var s' := mem[..];
    FlushName(mem, value, map[], R, v);
    assert endTag in R && R[endTag] == e;
    assert forall sp :: sp in M && sp != value ==> sp in R && R[sp] == M[sp];
    same := SameString(mem, endTag, value, e, v);
    NothingOutside(s, s', mem[..], lo, v.start, v.end + 1, e.start, e.end + 1, q);
  }

  lemma NothingOutside(s: string, s': string, s'': string, lo: nat, a: nat, b: nat, c: nat, d: nat, q: nat)
    requires lo <= a <= b <= c <= d <= q <= |s| == |s'| == |s''|
    requires s[..c] == s'[..c] && s[d..] == s'[d..] && s'[..a] == s''[..a] && s'[b..] == s''[b..]
    ensures s[..lo] == s''[..lo] && s[q..] == s''[q..]
  {
    assert s[..lo] == s[..c][..lo] && s'[..lo] == s'[..c][..lo] && s'[..lo] == s'[..a][..lo] && s''[..lo] == s''[..a][..lo];
    assert s[q..] == s[d..][q - d..] && s'[q..] == s'[d..][q - d..] && s'[q..] == s'[b..][q - b..] && s''[q..] == s''[b..][q - b..];
  }

  class Document {
    var error: Option<XmlError>
    var parsingDepth: nat
    var writeBOM: bool
    const cfg: Config

    constructor (cfg: Config)
      ensures this.cfg == cfg && error.None? && parsingDepth == 0 && !writeBOM
    {
      this.cfg, error, parsingDepth, writeBOM := cfg, None, 0, false;
    }

    method SetError(e: XmlError)
      modifies this`error
      ensures error == Some(e)
    {
      error := Some(e);
    }

    /** What a finished attribute list looks like in the buffer. */
    ghost predicate AttrsRead(mem: array<char>, p: nat, q: nat, n: nat, rest: string, attrs: seq<XAttr>, M: map<StrPair, Snap>, shown: seq<Attr>)
      reads mem, M.Keys
    {
      && p <= q && Sees(mem, q, n, rest) && AttrsCovered(attrs, M) && ShownAttrs(attrs, M) == shown
      && Agrees(M, mem, mem[..]) && Disjoint(M) && InRange(M, p + 1, q)
    }

    /** One attribute: parsed, its name flushed, and compared with the names before it. */
    method AddAttribute(mem: array<char>, at: nat, attrs: seq<XAttr>, ghost n: nat, ghost u: string, ghost p: nat,
                        ghost M: map<StrPair, Snap>)
      returns (q: Ptr, a: XAttr, ghost N: map<StrPair, Snap>)
      requires error.None? && p < at && AttrsRead(mem, p, at, n, u, attrs, M, ShownAttrs(attrs, M))
      requires forall i :: 0 <= i < |attrs| ==> !attrs[i].name.needsFlush
      modifies this`error, mem
      ensures fresh(a.name) && (q.At? ==> forall sp :: sp in N ==> fresh(sp))
      ensures mem[..p + 1] == old(mem[..p + 1])
      ensures var r := XmlSyntax.ParseAttribute(u, cfg);
              if r.AttrFail? || r.attr.name in Names(ShownAttrs(attrs, M)) then q == Null && error == Some(ErrAttribute)
              else error.None? && q.At? && at < q.index && !a.name.needsFlush
                   && AttrsRead(mem, p, q.index, n, r.rest, attrs + [a], M + N, ShownAttrs(attrs, M) + [r.attr])
    {
      hide XmlSyntax.ParseAttribute, Holds, Disjoint, NulFree, Names;
      q, a, N := ParseAttributeDeep(mem, at, cfg, n, u);
      if q == Null {
        SetError(ErrAttribute);
        return;
      }
      ghost var r := XmlSyntax.ParseAttribute(u, cfg);
      SeesTail(mem, q.index, n, r.rest);
      ghost var tail := mem[q.index..];
      var found := FlushAndFind(mem, a, attrs, M, N, p, at, q.index);
      if found {
        SetError(ErrAttribute);
        return Null, a, N;
      }
      NewAttribute(attrs, a, M, N, mem, mem[..], p + 1, at, q.index);
      SeesKept(mem, q.index, n, r.rest, tail);
    }

    /** XMLElement::ParseAttributes, from the end of the element's name at p. */
    method ParseAttributes(mem: array<char>, p: nat, ghost n: nat, ghost t: string)
      returns (q: Ptr, attrs: seq<XAttr>, closed: bool, ghost M: map<StrPair, Snap>)
      requires Sees(mem, p, n, t) && error.None? && (t != [] ==> !IsNameStartChar(t[0]))
      modifies this`error, mem
      ensures forall sp :: sp in M ==> fresh(sp)
      ensures mem[..p + 1] == old(mem[..p + 1])
      ensures var r := XmlSyntax.ParseAttributes(t, [], cfg);
              && (r.AttrsFail? ==> q == Null && error == Some(r.error))
              && (r.AttrsOk? ==>
                    && error.None? && q.At? && p < q.index && closed == r.selfClosed
                    && AttrsRead(mem, p, q.index, n, r.rest, attrs, M, r.attrs))
    {
      hide AttrsRead, SkipWS, XmlSyntax.ParseAttributes, ShownAttrs, Sees, IsNameStartChar;
      attrs, closed, M := [], false, map[];
      q := At(p);
      ghost var u := t;
      var more := true;
      SeesFacts(mem, p, n, t);
      NothingRead(mem, p, n, t);
      NothingShown(M);
      while more
        invariant forall sp :: sp in M ==> fresh(sp)
        invariant mem[..p + 1] == old(mem[..p + 1])
        invariant more ==> error.None? && q.At? && (q.index == p ==> u == t)
        invariant more ==> AttrsRead(mem, p, q.index, n, u, attrs, M, ShownAttrs(attrs, M))
        invariant more ==> forall i :: 0 <= i < |attrs| ==> !attrs[i].name.needsFlush
        invariant more ==> XmlSyntax.ParseAttributes(t, [], cfg) == XmlSyntax.ParseAttributes(u, ShownAttrs(attrs, M), cfg)
        invariant !more ==> AttrsDone(XmlSyntax.ParseAttributes(t, [], cfg), mem, p, q, n, attrs, closed, M)
        decreases more, |u|
      {
        more, q, attrs, closed, M, u := AttributesStep(mem, p, q.index, attrs, n, u, t, M);
      }
    }

    /** The loop has returned: with an error, or past the end of the tag. */
    ghost predicate AttrsDone(r: AttrsResult, mem: array<char>, p: nat, q: Ptr, n: nat, attrs: seq<XAttr>, closed: bool, M: map<StrPair, Snap>)
      reads this`error, mem, M.Keys
    {
      && (r.AttrsFail? ==> q == Null && error == Some(r.error))
      && (r.AttrsOk? ==> error.None? && q.At? && p < q.index && closed == r.selfClosed
                         && AttrsRead(mem, p, q.index, n, r.rest, attrs, M, r.attrs))
    }

    /** One round of that loop. */
    method AttributesStep(mem: array<char>, p: nat, from: nat, attrs0: seq<XAttr>, ghost n: nat, ghost u: string, ghost t: string,
                          ghost M: map<StrPair, Snap>)
      returns (more: bool, q: Ptr, attrs: seq<XAttr>, closed: bool, ghost N: map<StrPair, Snap>, ghost v: string)
      requires error.None? && AttrsRead(mem, p, from, n, u, attrs0, M, ShownAttrs(attrs0, M))
      requires forall i :: 0 <= i < |attrs0| ==> !attrs0[i].name.needsFlush
      requires from == p ==> u == [] || !IsNameStartChar(u[0])
      modifies this`error, mem
      ensures forall sp :: sp in N ==> sp in M || fresh(sp)
      ensures mem[..p + 1] == old(mem[..p + 1])
      ensures more ==> error.None? && q.At? && p < q.index && |v| < |u|
      ensures more ==> AttrsRead(mem, p, q.index, n, v, attrs, N, ShownAttrs(attrs, N))
      ensures more ==> forall i :: 0 <= i < |attrs| ==> !attrs[i].name.needsFlush
      ensures more ==> XmlSyntax.ParseAttributes(u, ShownAttrs(attrs0, M), cfg) == XmlSyntax.ParseAttributes(v, ShownAttrs(attrs, N), cfg)
      ensures !more ==> AttrsDone(XmlSyntax.ParseAttributes(u, ShownAttrs(attrs0, M), cfg), mem, p, q, n, attrs, closed, N)
    {
      hide SkipWS, XmlSyntax.ParseAttributes, XmlSyntax.ParseAttribute, ShownAttrs, Names, IsNameStartChar, AttrsRead, Sees;
      more, attrs, closed, N := false, attrs0, false, M;
      ghost var shown := ShownAttrs(attrs0, M);
      ReadOn(mem, p, from, from, n, u, u, attrs0, M, shown);
      var at := Skip(mem, from, n, u);
      v := SkipWS(u);
      SeesFacts(mem, from, n, u);
      SeesFacts(mem, at, n, v);
      SkipAgain(u);
      AttributesCases(u, shown, cfg);
      ReadOn(mem, p, from, at, n, u, v, attrs0, M, shown);
      if mem[at] == NUL {
        SetError(ErrElement);
        q := Null;
      } else if IsNameStartChar(mem[at]) {
        var a;
        ghost var A;
        assert p < at;
        q, a, A := AddAttribute(mem, at, attrs, n, v, p, M);
        if q.At? {
          ghost var r := XmlSyntax.ParseAttribute(v, cfg);
          more, v, attrs, N := true, r.rest, attrs + [a], M + A;
          AttrsReadShown(mem, p, q.index, n, v, attrs, N, shown + [r.attr]);
        }
      } else if mem[at] == '>' {
        PunctuationNoName();
        SeesMore(mem, at, n, v, 1);
        ReadOn(mem, p, at, at + 1, n, v, v[1..], attrs, M, shown);
        q := At(at + 1);
      } else if mem[at] == '/' && mem[at + 1] == '>' {
        PunctuationNoName();
        SeesMore(mem, at, n, v, 2);
        ReadOn(mem, p, at, at + 2, n, v, v[2..], attrs, M, shown);
        q, closed := At(at + 2), true;
      } else {
        SetError(ErrElement);
        q := Null;
      }
    }

    lemma PunctuationNoName()
      ensures !IsNameStartChar('>') && !IsNameStartChar('/')
    {
    }

    /** Reading on does not disturb the attributes already there. */
    lemma ReadOn(mem: array<char>, p: nat, from: nat, at: nat, n: nat, u: string, v: string, attrs: seq<XAttr>, M: map<StrPair, Snap>, shown: seq<Attr>)
      requires AttrsRead(mem, p, from, n, u, attrs, M, shown) && from <= at && ((at == from && u == v) || Sees(mem, at, n, v))
      ensures Sees(mem, from, n, u) && p <= from && AttrsRead(mem, p, at, n, v, attrs, M, shown)
    {
      hide Agrees, Disjoint, ShownAttrs, Sees;
    }

    lemma AttrsReadShown(mem: array<char>, p: nat, at: nat, n: nat, v: string, attrs: seq<XAttr>, M: map<StrPair, Snap>, shown: seq<Attr>)
      requires AttrsRead(mem, p, at, n, v, attrs, M, shown)
      ensures ShownAttrs(attrs, M) == shown
    {
      hide Agrees, Disjoint, ShownAttrs, Sees, InRange;
    }

    lemma NothingShown(M: map<StrPair, Snap>)
      ensures ShownAttrs([], M) == []
    {
    }

    lemma NothingRead(mem: array<char>, p: nat, n: nat, t: string)
      requires Sees(mem, p, n, t)
      ensures AttrsRead(mem, p, p, n, t, [], map[], ShownAttrs([], map[]))
    {
    }

    // ---------- elements ----------

    lemma NameStays(mem: array<char>, before: string, p: nat, mid: nat, value: StrPair, snap: Snap)
      requires Holds(value, mem, before, snap) && snap.start == p && snap.end == mid < mem.Length == |before| && mem[..mid + 1] == before[..mid + 1]
      ensures Holds(value, mem, mem[..], snap)
    {
      hide Value, Cut;
      PrefixPart(before, mem[..], mid + 1, value.start, value.end);
    }

    lemma AssembleHead(mem: array<char>, p: nat, mid: nat, q: nat, n: nat, rest: string, value: StrPair, attrs: seq<XAttr>,
                       M: map<StrPair, Snap>, snap: Snap, shown: seq<Attr>)
      requires AttrsRead(mem, mid, q, n, rest, attrs, M, shown) && Holds(value, mem, mem[..], snap) && !value.flags.collapse
      requires p == snap.start && snap.end == mid && mid < q
      ensures Sees(mem, q, n, rest)
      ensures ElementRead(mem, mem[..], p, q, value, attrs, [], map[value := snap] + M, snap.view, shown, [])
    {
      hide Value, Cut, ShownAttrs, Sees;
      var V := map[value := snap];
      assert snap.start <= snap.end;
      Merge(V, M, mem, mem[..], p, mid + 1, q);
      KeysDiffer(V, M, mem, mem[..], p, mid + 1, q);
      AttrsStay(attrs, M, V + M);
    }

    /** The name of a tag and its attributes; p stands at the name. */
    method NameAndAttributes(mem: array<char>, p: nat, value: StrPair, ghost n: nat, ghost u: string)
      returns (q: Ptr, attrs: seq<XAttr>, selfClosed: bool, ghost M: map<StrPair, Snap>)
      requires Sees(mem, p, n, u) && error.None?
      modifies this`error, mem, value
      ensures forall sp :: sp in M ==> sp == value || fresh(sp)
      ensures mem[..p] == old(mem[..p])
      ensures NameLength(u) == 0 ==> q == Null && error.None?
      ensures NameLength(u) > 0 ==>
                var r := XmlSyntax.ParseAttributes(u[NameLength(u)..], [], cfg);
                && (r.AttrsFail? ==> q == Null && error == Some(r.error))
                && (r.AttrsOk? ==>
                      && error.None? && q.At? && p < q.index && selfClosed == r.selfClosed && Sees(mem, q.index, n, r.rest)
                      && ElementRead(mem, mem[..], p, q.index, value, attrs, [], M, u[..NameLength(u)], r.attrs, []))
    {
      hide NameLength, XmlSyntax.ParseAttributes, AttrsRead, ElementRead, Sees, Holds, IsNameStartChar;
      attrs, selfClosed, M := [], false, map[];
      var behind;
      ghost var snap;
      behind, snap := NameOf(mem, p, value, n, u);
      if behind == Null {
        return Null, attrs, selfClosed, M;
      }
      ghost var k := NameLength(u);
      ghost var before := mem[..];
      q, attrs, selfClosed, M := ParseAttributes(mem, behind.index, n, u[k..]);
      assert mem[..p] == mem[..behind.index + 1][..p];
      if q.At? {
        ghost var r := XmlSyntax.ParseAttributes(u[k..], [], cfg);
        NameStays(mem, before, p, behind.index, value, snap);
        AssembleHead(mem, p, behind.index, q.index, n, r.rest, value, attrs, M, snap, r.attrs);
        M := map[value := snap] + M;
      }
    }

    /** The ParseDeep of comments, declarations, unknowns and CDATA sections. */
    method ParseBody(mem: array<char>, p: nat, value: StrPair, term: string, e: XmlError, ghost n: nat, ghost t: string) returns (q: Ptr)
      requires Sees(mem, p, n, t) && term != [] && NulFree(term) && error.None?
      modifies this`error, value
      ensures var found := Find(t, term);
              && (found.None? ==> q == Null && error == Some(e))
              && (found.Some? ==>
                    && error.None? && q.At? && p < q.index && Sees(mem, q.index, n, t[found.value + |term|..])
                    && PairRead(value, mem, p, q.index, XmlText.Value(t[..found.value], BODY)))
    {
      hide Find, XmlText.Value, NulFree;
      q := value.ParseText(mem, p, term, BODY, n);
      if q == Null {
        SetError(e);
      } else {
        SeesMore(mem, p, n, t, q.index - p);
      }
    }

    /** XMLText::ParseDeep for text that is no CDATA section; the '<' behind it stays unread. */
    method ParseText(mem: array<char>, p: nat, value: StrPair, ghost n: nat, ghost t: string) returns (q: Ptr)
      requires Sees(mem, p, n, t) && t != [] && t[0] != '<' && error.None?
      modifies this`error, value
      ensures var r := XmlSyntax.ParseText(t, cfg);
              && (r.Fail? ==> q == Null && (error == Some(r.error) || (error.None? && r.error == ErrParsing)))
              && (r.Got? ==>
                    && error.None? && q.At? && p < q.index && Sees(mem, q.index, n, r.rest)
                    && r.node.Text? && !r.node.cdata && PairRead(value, mem, p, Edge(q.index, r.rest), r.node.value))
      ensures XmlSyntax.ParseText(t, cfg).Fail? || XmlSyntax.ParseText(t, cfg).Got?
    {
      hide XmlText.Value, NulFree, Find, XmlSyntax.ParseText;
      TextCases(t, cfg);
      HeadersNulFree();
      q := value.ParseText(mem, p, "<", TextFlags(cfg), n);
      if q == Null {
        SetError(ErrText);
        return;
      }
      ghost var k := Find(t, "<").value;
      SeesMore(mem, p, n, t, k);
      SeesMore(mem, p, n, t, k + 1);
      SeesFacts(mem, p + k + 1, n, t[k + 1..]);
      if mem[q.index] == NUL {
        return Null;
      }
      q := At(q.index - 1);
    }

    /** The node of a kind other than element: its own ParseDeep, and the check where a declaration may stand. */
    method LeafChild(mem: array<char>, p: nat, kind: Kind, wellLocated: bool, ghost n: nat, ghost body: string)
      returns (round: Round, q: Ptr, ghost N: map<StrPair, Snap>)
      requires Sees(mem, p, n, body) && error.None? && !kind.ElementKind? && (kind.TextKind? ==> body != [] && body[0] != '<')
      modifies this`error
      ensures forall sp :: sp in N ==> fresh(sp)
      ensures ChildRead(LeafStep(kind, body, wellLocated, cfg), round, mem, p, q, n, null, N)
    {
      hide Find, XmlText.Value, Cut, NulFree, XmlSyntax.ParseText, NodeRead, Sees;
      HeadersNulFree();
      N := map[];
      var value := new StrPair();
      var x;
      match kind {
        case DeclarationKind =>
          x := XDeclaration(value);
          q := ParseBody(mem, p, value, "?>", ErrDeclaration, n, body);
          if q.At? && !wellLocated {
            SetError(ErrDeclaration);
            return Stop, Null, N;
          }
        case CommentKind =>
          x := XComment(value);
          q := ParseBody(mem, p, value, "-->", ErrComment, n, body);
        case CDataKind =>
          x := XText(value, true);
          q := ParseBody(mem, p, value, "]]>", ErrCData, n, body);
        case UnknownKind =>
          x := XUnknown(value);
          q := ParseBody(mem, p, value, ">", ErrUnknown, n, body);
        case TextKind =>
          x := XText(value, false);
          q := ParseText(mem, p, value, n, body);
      }
      if q == Null {
        if error.None? {
          SetError(ErrParsing);
        }
        return Stop, Null, N;
      }
      ghost var r := LeafStep(kind, body, wellLocated, cfg);
      N := map[value := Record(value)];
      LeafRead(mem, p, Edge(q.index, r.rest), x, r.node.value);
      round := Next(x);
    }

    /** What one round has done, when the node begins at or behind `lo`. */
    ghost predicate ChildRead(r: Step, round: Round, mem: array<char>, lo: nat, q: Ptr, n: nat, parentEnd: StrPair?, N: map<StrPair, Snap>)
      reads this`error, mem, N.Keys, parentEnd
    {
      match r
      case NoNode => round.Stop? && error.None?
      case Fail(e) => round.Stop? && error == Some(e)
      case EndTag(name, rest) =>
        && round.Return? && error.None? && q.At? && lo < q.index && Sees(mem, q.index, n, rest)
        && (parentEnd != null ==> EndTagRead(parentEnd, mem, lo, q.index, name))
      case Got(node, rest) =>
        && round.Next? && error.None? && q.At? && lo < q.index && Sees(mem, q.index, n, rest)
        && NodeRead(mem, mem[..], lo, Edge(q.index, rest), round.node, N, node)
    }

    /** XMLElement::ParseDeep up to the children, behind the '<'. */
    method ParseHead(mem: array<char>, p: nat, value: StrPair, ghost n: nat, ghost t: string)
      returns (q: Ptr, closing: Closing, attrs: seq<XAttr>, ghost M: map<StrPair, Snap>)
      requires Sees(mem, p, n, t) && error.None?
      modifies this`error, mem, value
      ensures forall sp :: sp in M ==> sp == value || fresh(sp)
      ensures mem[..p] == old(mem[..p])
      ensures var r := XmlSyntax.ParseHead(t, cfg);
              && (r.HeadFail? ==> q == Null && (error == Some(r.error) || (error.None? && r.error == ErrParsing)))
              && (r.Head? ==>
                    && error.None? && q.At? && p < q.index && closing == r.closing && Sees(mem, q.index, n, r.rest)
                    && ElementRead(mem, mem[..], p, q.index, value, attrs, [], M, r.name, r.attrs, []))
    {
      hide SkipWS, NameLength, XmlSyntax.ParseAttributes, XmlSyntax.ParseHead, Sees, ElementRead, NulFree, IsNameStartChar;
      var at := Skip(mem, p, n, t);
      ghost var u := SkipWS(t);
      SeesFacts(mem, at, n, u);
      HeadCases(t, cfg);
      closing := Open;
      if mem[at] == '/' {
        closing := ClosingTag;
        SeesMore(mem, at, n, u, 1);
        u := u[1..];
        at := at + 1;
      }
      var selfClosed;
      q, attrs, selfClosed, M := NameAndAttributes(mem, at, value, n, u);
      assert mem[..p] == mem[..at][..p];
      if selfClosed {
        closing := Closed;
      }
      if q.At? {
        ElementWider(mem, mem[..], at, p, q.index, value, attrs, M, u[..NameLength(u)], XmlSyntax.ParseHead(t, cfg).attrs);
      }
    }

    lemma ElementWider(mem: array<char>, s: string, lo: int, lo': int, hi: int, value: StrPair, attrs: seq<XAttr>, M: map<StrPair, Snap>,
                       name: string, shown: seq<Attr>)
      requires ElementRead(mem, s, lo, hi, value, attrs, [], M, name, shown, []) && lo' <= lo
      ensures ElementRead(mem, s, lo', hi, value, attrs, [], M, name, shown, [])
    {
      hide Agrees, Disjoint, ShownAttrs, ShownNodes, AttrsCovered;
    }

    /** What XMLElement::ParseDeep has read when the children were not entered. */
    ghost predicate TagRead(h: HeadResult, mem: array<char>, p: nat, q: Ptr, n: nat, value: StrPair, attrs: seq<XAttr>, M: map<StrPair, Snap>)
      requires h.Head?
      reads this`error, mem, M.Keys
    {
      && error.None? && q.At? && p < q.index && Sees(mem, q.index, n, h.rest)
      && ElementRead(mem, mem[..], p, q.index, value, attrs, [], M, h.name, h.attrs, [])
    }

    /** What it has read with the children, whose last one handed over the end tag. */
    ghost predicate NestedRead(h: HeadResult, c: Content, mem: array<char>, p: nat, q: Ptr, n: nat, value: StrPair, endTag: StrPair,
                               attrs: seq<XAttr>, children: seq<XNode>, M: map<StrPair, Snap>)
      requires h.Head?
      reads this`error, mem, M.Keys, endTag
    {
      match c
      case Failed(e) => q == Null && error == Some(e)
      case Ended(_) => q == Null && error.None?
      case AtEndTag(nodes, endName, rest) =>
        && error.None? && q.At? && p < q.index && Sees(mem, q.index, n, rest)
        && EndTagRead(endTag, mem, p, q.index, endName)
        && ElementRead(mem, mem[..], p, endTag.start, value, attrs, children, M, h.name, h.attrs, nodes)
    }

    /** XMLElement::ParseDeep, behind the '<'. */
    method ElementParseDeep(mem: array<char>, p: nat, value: StrPair, endTag: StrPair, ghost n: nat, ghost t: string)
      returns (q: Ptr, closing: Closing, attrs: seq<XAttr>, children: seq<XNode>, ghost M: map<StrPair, Snap>)
      requires Sees(mem, p, n, t) && error.None? && 1 <= parsingDepth < MAX_DEPTH && endTag.mem == null && endTag != value
      modifies this`error, this`parsingDepth, mem, value, endTag
      ensures parsingDepth == old(parsingDepth)
      ensures forall sp :: sp in M ==> sp == value || fresh(sp)
      ensures mem[..p] == old(mem[..p])
      ensures var h := XmlSyntax.ParseHead(t, cfg);
              && (h.HeadFail? ==> q == Null && (error == Some(h.error) || (error.None? && h.error == ErrParsing)))
              && (h.Head? ==> closing == h.closing)
              && (h.Head? && (h.closing != Open || h.rest == []) ==> children == [] && endTag.mem == null && TagRead(h, mem, p, q, n, value, attrs, M))
              && (h.Head? && h.closing == Open && h.rest != [] ==>
                    NestedRead(h, Level(h.rest, parsingDepth + 1, false, cfg), mem, p, q, n, value, endTag, attrs, children, M))
      decreases n - p, 0
    {
      hide XmlSyntax.ParseHead, Level, Sees, ElementRead, NodesRead, Agrees, Value, Cut;
      children := [];
      ghost var h := XmlSyntax.ParseHead(t, cfg);
      SeesFacts(mem, p, n, t);
      q, closing, attrs, M := ParseHead(mem, p, value, n, t);
      if q == Null {
        return;
      }
      SeesFacts(mem, q.index, n, h.rest);
      if mem[q.index] == NUL || closing != Open {
        return;
      }
      ghost var N, s, mid;
      s, mid := mem[..], q.index;
      q, children, N := NodeParseDeep(mem, q.index, false, endTag, n, h.rest);
      EdgeAt(mid, h.rest);
      FrameDown(mem, s, mid, Edge(mid, h.rest));
      FrameDown(mem, s, p, mid);
      if q.At? {
        ghost var c := Level(h.rest, parsingDepth + 1, false, cfg);
        NodesWider(mem, mem[..], Edge(mid, h.rest), mid, endTag.start, endTag.start, children, N, c.children);
        ElementKept(mem, s, mem[..], p, mid, value, attrs, [], M, h.name, h.attrs, []);
        AddChildren(mem, mem[..], p, mid, endTag.start, value, attrs, children, M, N, h.name, h.attrs, c.children);
        M := M + N;
      }
    }

    lemma NodesWider(mem: array<char>, s: string, lo: int, lo': int, hi: int, hi': int, xs: seq<XNode>, M: map<StrPair, Snap>, nodes: seq<Node>)
      requires NodesRead(mem, s, lo, hi, xs, M, nodes) && lo' <= lo && hi <= hi'
      ensures NodesRead(mem, s, lo', hi', xs, M, nodes)
    {
      hide Agrees, Disjoint, ShownNodes, NodesCovered;
    }

    lemma EdgeAt(p: nat, t: string)
      ensures p <= Edge(p, t) <= p + 1 && Edge(p, t) <= p + |t|
    {
    }

    /** What a level has read from p on. */
    ghost predicate LevelRead(c: Content, mem: array<char>, p: nat, lo: nat, q: Ptr, n: nat, parentEnd: StrPair?, xs: seq<XNode>, M: map<StrPair, Snap>)
      reads this`error, mem, M.Keys, parentEnd
    {
      match c
      case Failed(e) => q == Null && error == Some(e)
      case Ended(nodes) => q == Null && error.None? && NodesRead(mem, mem[..], lo, mem.Length, xs, M, nodes)
      case AtEndTag(nodes, name, rest) =>
        && error.None? && q.At? && p < q.index && Sees(mem, q.index, n, rest)
        && (parentEnd == null ==> NodesRead(mem, mem[..], lo, q.index, xs, M, nodes))
        && (parentEnd != null ==>
              EndTagRead(parentEnd, mem, lo, q.index, name) && NodesRead(mem, mem[..], lo, parentEnd.start, xs, M, nodes))
    }

    /** XMLNode::ParseDeep. Each level counts in parsingDepth while it is open. */
    method NodeParseDeep(mem: array<char>, p: nat, top: bool, parentEnd: StrPair?, ghost n: nat, ghost t: string)
      returns (q: Ptr, xs: seq<XNode>, ghost M: map<StrPair, Snap>)
      requires Sees(mem, p, n, t) && error.None? && parsingDepth < MAX_DEPTH && (parentEnd != null ==> parentEnd.mem == null)
      modifies this`error, this`parsingDepth, mem, parentEnd
      ensures parsingDepth == old(parsingDepth)
      ensures forall sp :: sp in M ==> fresh(sp)
      ensures mem[..Edge(p, t)] == old(mem[..Edge(p, t)])
      ensures LevelRead(Level(t, parsingDepth + 1, top, cfg), mem, p, Edge(p, t), q, n, parentEnd, xs, M)
      decreases n - p, 3
    {
      hide Level, Sees, NodesRead, PairRead, Agrees, LevelRead, ParseContent, Edge;
      q, xs, M := At(p), [], map[];
      parsingDepth := parsingDepth + 1;
      ghost var depth, lo, u := parsingDepth, Edge(p, t), t;
      SeesFacts(mem, p, n, t);
      EdgeAt(p, t);
      LevelCases(t, depth, top, cfg);
      if parsingDepth == MAX_DEPTH {
        SetError(ErrDepth);
        parsingDepth := parsingDepth - 1;
        LevelFailed(ErrDepth, mem, p, lo, n, parentEnd, xs, M);
        return Null, xs, M;
      }
      NothingYet(mem, p, t);
      var more := true;
      while more
        invariant parsingDepth == depth && depth < MAX_DEPTH
        invariant forall sp :: sp in M ==> fresh(sp)
        invariant mem[..lo] == old(mem[..lo])
        invariant more ==> error.None? && q.At? && p <= q.index && (parentEnd != null ==> parentEnd.mem == null)
        invariant more ==> Sees(mem, q.index, n, u) && NodesRead(mem, mem[..], lo, Edge(q.index, u), xs, M, ShownNodes(xs, M))
        invariant more ==> ParseContent(t, depth, top, [], cfg) == ParseContent(u, depth, top, ShownNodes(xs, M), cfg)
        invariant !more ==> LevelRead(ParseContent(t, depth, top, [], cfg), mem, p, lo, q, n, parentEnd, xs, M)
        decreases more, |u|
      {
        more, q, xs, M, u := NodeStep(mem, q.index, top, xs, parentEnd, n, u, M, p, lo);
      }
      parsingDepth := parsingDepth - 1;
    }

    lemma LevelFailed(e: XmlError, mem: array<char>, p: nat, lo: nat, n: nat, parentEnd: StrPair?, xs: seq<XNode>, M: map<StrPair, Snap>)
      requires error == Some(e)
      ensures LevelRead(Failed(e), mem, p, lo, Null, n, parentEnd, xs, M)
    {
    }

    lemma NothingYet(mem: array<char>, p: nat, t: string)
      ensures ShownNodes([], map[]) == [] && NodesRead(mem, mem[..], Edge(p, t), Edge(p, t), [], map[], [])
    {
    }

    /** One round of that loop: the next node is read and linked behind the others, or the level ends. */
    method NodeStep(mem: array<char>, at: nat, top: bool, xs0: seq<XNode>, parentEnd: StrPair?, ghost n: nat, ghost u: string,
                    ghost M: map<StrPair, Snap>, ghost p: nat, ghost lo: nat)
      returns (more: bool, q: Ptr, xs: seq<XNode>, ghost N: map<StrPair, Snap>, ghost v: string)
      requires Sees(mem, at, n, u) && p <= at && error.None? && 1 <= parsingDepth < MAX_DEPTH
      requires (parentEnd != null ==> parentEnd.mem == null && parentEnd !in M) && lo <= mem.Length
      requires NodesRead(mem, mem[..], lo, Edge(at, u), xs0, M, ShownNodes(xs0, M))
      modifies this`error, this`parsingDepth, mem, parentEnd
      ensures parsingDepth == old(parsingDepth)
      ensures forall sp :: sp in N ==> sp in M || fresh(sp)
      ensures mem[..lo] == old(mem[..lo])
      ensures more ==> error.None? && q.At? && at < q.index && |v| < |u| && (parentEnd != null ==> parentEnd.mem == null)
      ensures more ==> Sees(mem, q.index, n, v) && NodesRead(mem, mem[..], lo, Edge(q.index, v), xs, N, ShownNodes(xs, N))
      ensures more ==> ParseContent(u, parsingDepth, top, ShownNodes(xs0, M), cfg) == ParseContent(v, parsingDepth, top, ShownNodes(xs, N), cfg)
      ensures !more ==> LevelRead(ParseContent(u, parsingDepth, top, ShownNodes(xs0, M), cfg), mem, p, lo, q, n, parentEnd, xs, N)
      decreases n - at, 2
    {
      hide Sees, NodesRead, PairRead, Agrees, LevelRead, ParseContent, ParseOne, Edge, ShownNodes, NodeRead;
      more, q, xs, N, v := false, Null, xs0, M, u;
      ghost var acc, depth, s := ShownNodes(xs0, M), parsingDepth, mem[..];
      SeesFacts(mem, at, n, u);
      ContentCases(u, depth, top, acc, cfg);
      NodesShown(mem, mem[..], lo, Edge(at, u), xs, M, acc);
      EdgeAt(at, u);
      if mem[at] == NUL {
        LevelEnds(mem, p, lo, Edge(at, u), n, parentEnd, xs, M, acc);
        return;
      }
      var round;
      ghost var A;
      round, q, A := ParseChild(mem, at, top, xs, parentEnd, n, u, M);
      FrameDown(mem, s, lo, Edge(at, u));
      NodesKept(mem, s, mem[..], lo, Edge(at, u), xs, M, acc);
      ghost var r := ParseOne(u, depth, top, acc, cfg);
      match round {
        case Stop =>
          q := Null;
          LevelStops(r, mem, p, lo, Edge(at, u), n, parentEnd, xs, M, acc, q, A);
        case Return =>
          LevelReturns(r, mem, p, at, lo, Edge(at, u), n, parentEnd, xs, M, acc, q, A);
        case Next(x) =>
          GotNode(r, mem, lo, at, u, n, parentEnd, xs, M, acc, q, x, A);
          more, xs, N, v := true, xs + [x], M + A, r.rest;
      }
    }

    lemma FrameDown(mem: array<char>, s: string, lo: nat, hi: nat)
      requires lo <= hi <= |s| == mem.Length && s[..hi] == mem[..hi]
      ensures s[..lo] == mem[..lo] && mem[..][..lo] == s[..lo] && mem[..][..hi] == s[..hi]
    {
      assert s[..lo] == s[..hi][..lo] && mem[..lo] == mem[..hi][..lo];
    }

    lemma LevelStops(r: Step, mem: array<char>, p: nat, lo: nat, hi: nat, n: nat, parentEnd: StrPair?, xs: seq<XNode>, M: map<StrPair, Snap>,
                     nodes: seq<Node>, q: Ptr, A: map<StrPair, Snap>)
      requires ChildRead(r, Stop, mem, hi, q, n, parentEnd, A) && NodesRead(mem, mem[..], lo, hi, xs, M, nodes) && hi <= mem.Length
      ensures r.NoNode? || r.Fail?
      ensures r.NoNode? ==> LevelRead(Ended(nodes), mem, p, lo, Null, n, parentEnd, xs, M)
      ensures r.Fail? ==> LevelRead(Failed(r.error), mem, p, lo, Null, n, parentEnd, xs, M)
    {
      hide NodesRead, NodeRead, EndTagRead, Sees;
      if r.NoNode? {
        LevelEnds(mem, p, lo, hi, n, parentEnd, xs, M, nodes);
      }
    }

    lemma LevelReturns(r: Step, mem: array<char>, p: nat, at: nat, lo: nat, hi: nat, n: nat, parentEnd: StrPair?, xs: seq<XNode>,
                       M: map<StrPair, Snap>, nodes: seq<Node>, q: Ptr, A: map<StrPair, Snap>)
      requires ChildRead(r, Return, mem, hi, q, n, parentEnd, A) && NodesRead(mem, mem[..], lo, hi, xs, M, nodes) && p <= at <= hi
      ensures r.EndTag? && LevelRead(AtEndTag(nodes, r.name, r.rest), mem, p, lo, q, n, parentEnd, xs, M)
    {
      hide Sees, NodeRead, Agrees, Disjoint, NodesCovered, ShownNodes;
    }

    lemma GotNode(r: Step, mem: array<char>, lo: nat, at: nat, u: string, n: nat, parentEnd: StrPair?, xs: seq<XNode>,
                  M: map<StrPair, Snap>, nodes: seq<Node>, q: Ptr, x: XNode, A: map<StrPair, Snap>)
      requires ChildRead(r, Next(x), mem, Edge(at, u), q, n, parentEnd, A) && NodesRead(mem, mem[..], lo, Edge(at, u), xs, M, nodes)
      requires at + |u| == n
      ensures r.Got? && error.None? && q.At? && at < q.index && Sees(mem, q.index, n, r.rest) && |r.rest| < |u|
      ensures ShownNodes(xs + [x], M + A) == nodes + [r.node]
      ensures NodesRead(mem, mem[..], lo, Edge(q.index, r.rest), xs + [x], M + A, ShownNodes(xs + [x], M + A))
    {
      hide NodesRead, NodeRead, ShownNodes;
      AddNode(mem, mem[..], lo, Edge(at, u), Edge(q.index, r.rest), xs, x, M, A, nodes, r.node);
      NodesShown(mem, mem[..], lo, Edge(q.index, r.rest), xs + [x], M + A, nodes + [r.node]);
    }

    lemma NodesShown(mem: array<char>, s: string, lo: int, hi: int, xs: seq<XNode>, M: map<StrPair, Snap>, nodes: seq<Node>)
      requires NodesRead(mem, s, lo, hi, xs, M, nodes)
      ensures ShownNodes(xs, M) == nodes && lo <= hi
    {
      hide Agrees, Disjoint, ShownNodes, NodesCovered;
    }

    lemma LevelEnds(mem: array<char>, p: nat, lo: nat, hi: nat, n: nat, parentEnd: StrPair?, xs: seq<XNode>, M: map<StrPair, Snap>, nodes: seq<Node>)
      requires NodesRead(mem, mem[..], lo, hi, xs, M, nodes) && hi <= mem.Length && error.None?
      ensures LevelRead(Ended(nodes), mem, p, lo, Null, n, parentEnd, xs, M)
    {
      hide Agrees, Disjoint, ShownNodes, NodesCovered;
    }

    /** Identify and the node's ParseDeep, with all the checks behind it. */
    method ParseChild(mem: array<char>, p: nat, top: bool, xs: seq<XNode>, parentEnd: StrPair?, ghost n: nat, ghost t: string,
                      ghost M: map<StrPair, Snap>)
      returns (round: Round, q: Ptr, ghost N: map<StrPair, Snap>)
      requires Sees(mem, p, n, t) && error.None? && 1 <= parsingDepth < MAX_DEPTH && (parentEnd != null ==> parentEnd.mem == null)
      modifies this`error, this`parsingDepth, mem, parentEnd
      ensures parsingDepth == old(parsingDepth)
      ensures forall sp :: sp in N ==> fresh(sp)
      ensures mem[..Edge(p, t)] == old(mem[..Edge(p, t)])
      ensures parentEnd != null && !round.Return? ==> parentEnd.mem == null
      ensures ChildRead(ParseOne(t, parsingDepth, top, ShownNodes(xs, M), cfg), round, mem, Edge(p, t), q, n, parentEnd, N)
      decreases n - p, 1
    {
      hide Sees, ParseOne, Edge, ShownNodes, NodeRead, PairRead, ChildRead, DeclarationAllowed, LeafStep, ParseElement, XmlSyntax.Identify, SkipWS;
      N, q := map[], Null;
      ghost var depth, acc := parsingDepth, ShownNodes(xs, M);
      ChildCases(t, depth, top, acc, cfg);
      var kind, from := IdentifyNode(mem, p, n, t);
      if kind.None? {
        NoChild(mem, Edge(p, t), q, n, parentEnd, N);
        return Stop, q, N;
      }
      ghost var u := SkipWS(t);
      ghost var body := if kind.value.TextKind? then t else u[HeaderLength(kind.value)..];
      ghost var r, s, lo := ParseOne(t, depth, top, acc, cfg), mem[..], Edge(p, t);
      SeesFacts(mem, p, n, t);
      SeesFacts(mem, from, n, body);
      EdgeAt(p, t);
      if kind.value.ElementKind? {
        round, q, N := ElementChild(mem, from, parentEnd, n, body);
        FrameDown(mem, s, lo, from);
      } else {
        var wellLocated := WellLocated(top, xs, M);
        round, q, N := LeafChild(mem, from, kind.value, wellLocated, n, body);
        LeafReturns(kind.value, body, wellLocated);
        ChildIsLeaf(r, round, mem, from, q, n, parentEnd, N);
      }
      ChildReadWider(r, round, mem, from, lo, q, n, parentEnd, N);
    }

    lemma LeafReturns(kind: Kind, body: string, allowed: bool)
      requires !kind.ElementKind? && (kind.TextKind? ==> body != [] && body[0] != '<')
      ensures !LeafStep(kind, body, allowed, cfg).EndTag?
    {
      hide Find, XmlText.Value;
    }

    lemma ChildIsLeaf(r: Step, round: Round, mem: array<char>, lo: nat, q: Ptr, n: nat, parentEnd: StrPair?, N: map<StrPair, Snap>)
      requires ChildRead(r, round, mem, lo, q, n, null, N) && !r.EndTag?
      ensures ChildRead(r, round, mem, lo, q, n, parentEnd, N) && !round.Return?
    {
      hide Sees, NodeRead;
    }

    lemma ChildReadWider(r: Step, round: Round, mem: array<char>, lo: nat, lo': nat, q: Ptr, n: nat, parentEnd: StrPair?, N: map<StrPair, Snap>)
      requires ChildRead(r, round, mem, lo, q, n, parentEnd, N) && lo' <= lo
      ensures ChildRead(r, round, mem, lo', q, n, parentEnd, N)
    {
      hide Sees, Agrees, Disjoint, Shown, Covered, Value, Cut;
    }

    lemma NoChild(mem: array<char>, lo: nat, q: Ptr, n: nat, parentEnd: StrPair?, N: map<StrPair, Snap>)
      requires error.None?
      ensures ChildRead(NoNode, Stop, mem, lo, q, n, parentEnd, N)
    {
    }

    /** The part of the loop in XMLNode::ParseDeep for elements, behind the '<'. */
    method ElementChild(mem: array<char>, p: nat, parentEnd: StrPair?, ghost n: nat, ghost t: string)
      returns (round: Round, q: Ptr, ghost N: map<StrPair, Snap>)
      requires Sees(mem, p, n, t) && error.None? && 1 <= parsingDepth < MAX_DEPTH && (parentEnd != null ==> parentEnd.mem == null)
      modifies this`error, this`parsingDepth, mem, parentEnd
      ensures parsingDepth == old(parsingDepth)
      ensures forall sp :: sp in N ==> fresh(sp)
      ensures mem[..p] == old(mem[..p])
      ensures parentEnd != null && !round.Return? ==> parentEnd.mem == null
      ensures ChildRead(ParseElement(t, parsingDepth, cfg), round, mem, p, q, n, parentEnd, N)
      decreases n - p, 1
    {
      hide Sees, ParseElement, XmlSyntax.ParseHead, Level, ElementRead, FinishElement, NodeRead, Value, Cut, NulFree, Edge;
      ghost var depth, h := parsingDepth, XmlSyntax.ParseHead(t, cfg);
      ElementCases(t, depth, cfg);
      HeadHasName(t, cfg);
      var value := new StrPair();
      var endTag := new StrPair();
      var closing, attrs, children;
      q, closing, attrs, children, N := ElementParseDeep(mem, p, value, endTag, n, t);
      FinishCases(h, Level(if h.Head? then h.rest else t, depth + 1, false, cfg));
      if q == Null {
        if error.None? {
          SetError(ErrParsing);
        }
        return Stop, q, N;
      }
      if closing == ClosingTag {
        if parentEnd != null {
          TagHandedOver(mem, p, q.index, value, attrs, N, h.name, h.attrs);
          HandOver(mem, value, parentEnd, p, q.index, h.name);
        }
        return Return, q, map[];
      }
      ghost var nodes, rest := [], h.rest;
      var mismatch := closing == Open;
      if !endTag.Empty() {
        ghost var c := Level(h.rest, depth + 1, false, cfg);
        nodes, rest := c.children, c.rest;
        var same := CompareEndTag(mem, value, endTag, attrs, children, p, q.index, n, N, h, c);
        mismatch := closing != Open || !same;
      }
      if mismatch {
        SetError(ErrMismatched);
        return Stop, Null, N;
      }
      EdgeAt(q.index, rest);
      ElementNode(mem, mem[..], p, q.index, value, attrs, children, N, h.name, h.attrs, nodes);
      NodeReadWider(mem, mem[..], p, q.index, Edge(q.index, rest), XElement(value, attrs, children), N, Element(h.name, h.attrs, nodes));
      round := Next(XElement(value, attrs, children));
    }

    /** The comparison with the end tag, which leaves what is still to be read alone. */
    method CompareEndTag(mem: array<char>, value: StrPair, endTag: StrPair, ghost attrs: seq<XAttr>, ghost children: seq<XNode>,
                         ghost p: nat, ghost q: nat, ghost n: nat, ghost M: map<StrPair, Snap>, ghost h: HeadResult, ghost c: Content)
      returns (same: bool)
      requires h.Head? && c.AtEndTag? && Sees(mem, q, n, c.rest) && EndTagRead(endTag, mem, p, q, c.name) && endTag !in M
      requires ElementRead(mem, mem[..], p, endTag.start, value, attrs, children, M, h.name, h.attrs, c.children)
      modifies value, endTag, mem
      ensures same <==> c.name == h.name
      ensures Sees(mem, q, n, c.rest) && mem[..p] == old(mem[..p])
      ensures ElementRead(mem, mem[..], p, q, value, attrs, children, M, h.name, h.attrs, c.children)
    {
      hide Sees, ElementRead, EndTagRead, NulFree;
      SeesFacts(mem, q, n, c.rest);
      ghost var tail := mem[q..];
      SeesTail(mem, q, n, c.rest);
      same := SameEndTag(mem, value, endTag, attrs, children, p, q, M, h.name, c.name, h.attrs, c.children);
      SeesKept(mem, q, n, c.rest, tail);
    }

    lemma NodeReadWider(mem: array<char>, s: string, lo: int, hi: int, hi': int, x: XNode, M: map<StrPair, Snap>, node: Node)
      requires NodeRead(mem, s, lo, hi, x, M, node) && hi <= hi'
      ensures NodeRead(mem, s, lo, hi', x, M, node)
    {
      hide Agrees, Disjoint, Shown, Covered;
    }

    /** `value.TransferTo(parentEnd)` for a name that nothing has flushed yet. */
    method HandOver(mem: array<char>, value: StrPair, parentEnd: StrPair, ghost p: nat, ghost q: nat, ghost name: string)
      requires EndTagRead(value, mem, p, q, name) && parentEnd.mem == null
      modifies value, parentEnd
      ensures EndTagRead(parentEnd, mem, p, q, name)
    {
      hide Value, Cut;
      value.TransferTo(parentEnd);
    }

    /** The name of a closing tag can be handed to the parent. */
    lemma TagHandedOver(mem: array<char>, p: nat, q: nat, value: StrPair, attrs: seq<XAttr>, M: map<StrPair, Snap>, name: string, shown: seq<Attr>)
      requires ElementRead(mem, mem[..], p, q, value, attrs, [], M, name, shown, []) && name != []
      ensures EndTagRead(value, mem, p, q, name)
    {
      hide Value, Cut, ShownAttrs, AttrsCovered, Disjoint;
      ViewOfHolds(value, mem, M[value]);
      NonEmptyView(value, mem, p, q, name);
    }

    // ---------- documents ----------

    /** XMLUtil::ReadBOM. */
    method ReadBOM(mem: array<char>, p: nat, ghost n: nat, ghost t: string) returns (q: nat)
      requires Sees(mem, p, n, t)
      modifies this`writeBOM
      ensures writeBOM == StartsWith(t, BOM) && Sees(mem, q, n, SkipBom(t))
    {
      hide NulFree;
      BomNulFree();
      writeBOM := StartsWithAt(mem, p, BOM, n);
      q := if writeBOM then p + 3 else p;
      if writeBOM {
        SeesMore(mem, p, n, t, 3);
      }
    }

    /** The buffer shows the document: every string of the tree lies in a closed range of its own. */
    ghost predicate DocumentRead(r: DocResult, mem: array<char>, xs: seq<XNode>, M: map<StrPair, Snap>)
      reads this`error, this`writeBOM, mem, M.Keys
    {
      match r
      case DocFail(e) => error == Some(e)
      case Doc(bom, nodes) => error.None? && writeBOM == bom && NodesRead(mem, mem[..], 0, mem.Length, xs, M, nodes)
    }

    /** XMLDocument::Parse() over a filled buffer. */
    method ParseBuffer(mem: array<char>, ghost n: nat, ghost t: string) returns (xs: seq<XNode>, ghost M: map<StrPair, Snap>)
      requires Sees(mem, 0, n, t) && error.None? && parsingDepth == 0
      modifies this, mem
      ensures parsingDepth == 0
      ensures forall sp :: sp in M ==> fresh(sp)
      ensures DocumentRead(ParseDocument(t, cfg), mem, xs, M)
    {
      hide SkipWS, SkipBom, StartsWith, Sees, ParseContent, NodesRead;
      xs, M := [], map[];
      var p := Skip(mem, 0, n, t);
      p := ReadBOM(mem, p, n, SkipWS(t));
      ghost var u, bom := SkipBom(SkipWS(t)), writeBOM;
      SeesFacts(mem, p, n, u);
      if mem[p] == NUL {
        SetError(ErrEmptyDocument);
        return;
      }
      var q;
      q, xs, M := NodeParseDeep(mem, p, true, null, n, u);
      LevelCases(u, 1, true, cfg);
      ghost var c := ParseContent(u, 1, true, [], cfg);
      if q.At? {
        SeesFacts(mem, q.index, n, c.rest);
        NodesWider(mem, mem[..], Edge(p, u), 0, q.index, mem.Length, xs, M, c.children);
      } else if error.None? {
        NodesWider(mem, mem[..], Edge(p, u), 0, mem.Length, mem.Length, xs, M, c.children);
      }
    }

    /** XMLDocument::Parse(p, len) on a fresh document: `text` is copied behind the caller's back and may contain NULs, at the
        first of which reading stops. */
    method Parse(text: string) returns (mem: array<char>, xs: seq<XNode>, ghost M: map<StrPair, Snap>)
      requires error.None? && parsingDepth == 0
      modifies this
      ensures parsingDepth == 0 && fresh(mem)
      ensures forall sp :: sp in M ==> fresh(sp)
      ensures DocumentRead(ParseDocument(Cut(text), cfg), mem, xs, M)
    {
      hide NodesRead, Sees, SkipWS, Cut, ParseDocument;
      var n := |text|;
      mem := new char[n + 1](i => if 0 <= i < n then text[i] else NUL);
      xs, M := [], map[];
      if n == 0 || text[0] == NUL {
        SetError(ErrEmptyDocument);
        NothingToParse(text, cfg);
        return;
      }
      CopySees(mem, text);
      xs, M := ParseBuffer(mem, |Cut(text)|, Cut(text));
    }

    lemma NothingToParse(text: string, cfg: Config)
      requires text == [] || text[0] == NUL
      ensures ParseDocument(Cut(text), cfg) == DocFail(ErrEmptyDocument)
    {
      assert Cut(text) == [] && SkipWS([]) == [] && SkipBom([]) == [];
    }

    lemma CopySees(mem: array<char>, text: string)
      requires mem.Length == |text| + 1 && mem[..|text|] == text && mem[|text|] == NUL
      ensures |Cut(text)| < mem.Length && Sees(mem, 0, |Cut(text)|, Cut(text))
    {
      var c := Cut(text);
      assert mem[0..|c|] == text[..|c|] == c;
      assert |c| < |text| ==> text[|c|] == NUL;
    }
  }

  // ---------- reading the tree, lazily ----------

  lemma OtherKept(M: map<StrPair, Snap>, sp: StrPair, mem: array<char>, s: string, s': string, a: StrPair)
    requires sp in M && a in M && a != sp && Holds(a, mem, s, M[a]) && Disjoint(M) && M[sp].start <= M[sp].end < |s| == |s'|
    requires s[..M[sp].start] == s'[..M[sp].start] && s[M[sp].end + 1..] == s'[M[sp].end + 1..]
    ensures Holds(a, mem, s', M[a])
  {
    hide Value, Cut;
    var A := map[a := M[a]];
    if M[a].end < M[sp].start {
      PrefixKept(A, mem, s, s', M[sp].start);
    } else {
      SuffixKept(A, mem, s, s', M[sp].end + 1);
    }
    assert a in A && A[a] == M[a];
  }

  lemma OthersKept(M: map<StrPair, Snap>, sp: StrPair, mem: array<char>, s: string, s': string)
    requires sp in M && Agrees(M - {sp}, mem, s) && Disjoint(M) && M[sp].start <= M[sp].end < |s| == |s'|
    requires s[..M[sp].start] == s'[..M[sp].start] && s[M[sp].end + 1..] == s'[M[sp].end + 1..] && Holds(sp, mem, s', M[sp])
    ensures Agrees(M, mem, s')
  {
    hide Holds, Disjoint;
    forall a | a in M
      ensures Holds(a, mem, s', M[a])
    {
      if a != sp {
        assert a in M - {sp};
        OtherKept(M, sp, mem, s, s', a);
      }
    }
  }

  /** GetStr on any pair of a parse, flushed before or not: it yields the string that decoding a private copy would have given,
      and leaves the strings of all pairs as they were. */
  method ReadPair(mem: array<char>, sp: StrPair, ghost M: map<StrPair, Snap>) returns (v: string)
    requires sp in M && Agrees(M, mem, mem[..]) && Disjoint(M) && InRange(M, 0, mem.Length)
    modifies sp, mem
    ensures v == M[sp].view && Agrees(M, mem, mem[..])
  {
    hide Value, Cut, Disjoint, Holds, NulFree;
    ghost var s, snap := mem[..], M[sp];
    assert Holds(sp, mem, s, snap);
    HoldsWhere(sp, mem, s, snap);
    ViewOfHolds(sp, mem, snap);
    ghost var from := sp.start;
    assert Agrees(M - {sp}, mem, s);
    var at := sp.GetStr();
    v := Cut(mem[at..]);
    GapKept(mem, s, snap.start, from, snap.end);
    HoldsOfView(sp, mem, snap);
    OthersKept(M, sp, mem, s, mem[..]);
  }

  lemma HoldsWhere(sp: StrPair, mem: array<char>, s: string, snap: Snap)
    requires Holds(sp, mem, s, snap)
    ensures snap.start <= sp.start <= sp.end == snap.end < |s| && !sp.needsDelete
  {
  }

  lemma GapKept(mem: array<char>, s: string, lo: nat, from: nat, end: nat)
    requires lo <= from <= end < |s| == mem.Length && mem[..from] == s[..from] && mem[end + 1..] == s[end + 1..]
    ensures s[..lo] == mem[..][..lo] && s[end + 1..] == mem[..][end + 1..]
  {
    assert mem[..from][..lo] == mem[..][..lo] && s[..from][..lo] == s[..lo];
  }

  /** Any pairs of a parse, in any order and any number of times. */
  method ReadPairs(mem: array<char>, order: seq<StrPair>, ghost M: map<StrPair, Snap>) returns (strings: seq<string>)
    requires Agrees(M, mem, mem[..]) && Disjoint(M) && InRange(M, 0, mem.Length) && forall i :: 0 <= i < |order| ==> order[i] in M
    modifies mem, M.Keys
    ensures |strings| == |order| && forall i :: 0 <= i < |order| ==> strings[i] == M[order[i]].view
    ensures Agrees(M, mem, mem[..])
  {
    hide Agrees, Disjoint, InRange;
    strings := [];
    for i := 0 to |order|
      invariant |strings| == i && forall j :: 0 <= j < i ==> strings[j] == M[order[j]].view
      invariant Agrees(M, mem, mem[..])
    {
      var v := ReadPair(mem, order[i], M);
      strings := strings + [v];
    }
  }
}
