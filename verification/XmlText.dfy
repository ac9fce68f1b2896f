/** The decoding that a StrPair owes its reader, the escaping that the printer applies, and how the two relate.
    Everything here is a function on texts; StrPairs.dfy proves the in-place code against it. */
module XmlText {
  import opened XmlUtil

  /** The three decoding flags of a StrPair. */
  datatype Flags = Flags(entities: bool, newlines: bool, collapse: bool)

  const RAW := Flags(false, false, false)

  predicate StartsWith(s: string, t: string) {
    |t| <= |s| && forall i :: 0 <= i < |t| ==> s[i] == t[i]
  }

  // ---------- decoding ----------

  datatype Entity = NoEntity | Entity(value: char, consumed: nat)

  /** The five predefined entities of section 4.6 of XML 1.0, tried in the order of the table. */
  function EntityAt(s: string): (r: Entity)
    ensures r.Entity? ==> 4 <= r.consumed <= |s|
  {
    if StartsWith(s, "&quot;") then Entity('"', 6)
    else if StartsWith(s, "&amp;") then Entity('&', 5)
    else if StartsWith(s, "&apos;") then Entity('\'', 6)
    else if StartsWith(s, "&lt;") then Entity('<', 4)
    else if StartsWith(s, "&gt;") then Entity('>', 4)
    else NoEntity
  }

  /** One step of the decoder on a non-empty text: what it writes and how much it reads. `stale` is the byte that
      the write pointer stands on; an ampersand that starts no entity leaves that byte in place. */
  function DecodeStep(s: string, f: Flags, stale: char): (r: (string, nat))
    requires s != []
    ensures 1 <= r.1 <= |s| && |r.0| <= r.1
  {
    if f.newlines && s[0] == CR then ([LF], if |s| > 1 && s[1] == LF then 2 else 1)
    else if f.newlines && s[0] == LF then ([LF], if |s| > 1 && s[1] == CR then 2 else 1)
    else if f.entities && s[0] == '&' then
      if |s| > 1 && s[1] == '#' then
        match GetCharacterRef(s)
        case NoRef => (['&'], 1)
        case Ref(out, consumed) => (out, consumed)
      else
        match EntityAt(s)
        case NoEntity => ([stale], 1)
        case Entity(value, consumed) => ([value], consumed)
    else ([s[0]], 1)
  }

  /** Exactly what the in-place pass leaves: `raw` is the undecoded text, `p` the read position, `out` what has been
      written so far over the front of `raw`. */
  function DecodeFrom(raw: string, f: Flags, p: nat, out: string): (r: string)
    requires |out| <= p <= |raw|
    ensures |out| <= |r| <= |raw| && r[..|out|] == out
    decreases |raw| - p
  {
    if p == |raw| then out
    else
      var (w, n) := DecodeStep(raw[p..], f, raw[|out|]);
      DecodeFrom(raw, f, p + n, out + w)
  }

  /** The string a reader gets from the undecoded text `raw`. */
  function Value(raw: string, f: Flags): (r: string)
    ensures NulFree(r)
  {
    var d := Cut(DecodeFrom(raw, f, 0, []));
    if f.collapse then CollapseNulFree(d); Collapse(d) else d
  }

  /** The decoder that section 4 of XML 1.0 suggests: left to right, an unknown entity stays as it is. */
  function Ideal(s: string, f: Flags): string
    decreases |s|
  {
    if s == [] then []
    else
      var (w, n) := DecodeStep(s, f, '&');
      w + Ideal(s[n..], f)
  }

  predicate UnknownEntity(s: string, f: Flags) {
    s != [] && f.entities && s[0] == '&' && !(|s| > 1 && s[1] == '#') && EntityAt(s).NoEntity?
  }

  /** Whenever the pass meets an unknown entity, the byte under the write pointer happens to be an ampersand. */
  predicate NothingStale(raw: string, f: Flags, p: nat, q: nat)
    requires q <= p <= |raw|
    decreases |raw| - p
  {
    p == |raw| ||
    var (w, n) := DecodeStep(raw[p..], f, raw[q]);
    (UnknownEntity(raw[p..], f) ==> raw[q] == '&') && NothingStale(raw, f, p + n, q + |w|)
  }

  /** The stale byte matters for nothing but an unknown entity. */
  lemma StaleOnly(s: string, f: Flags, stale: char)
    requires s != []
    ensures DecodeStep(s, f, stale).1 == DecodeStep(s, f, '&').1
    ensures |DecodeStep(s, f, stale).0| == |DecodeStep(s, f, '&').0|
    ensures DecodeStep(s, f, stale).0 == DecodeStep(s, f, '&').0 <==> (UnknownEntity(s, f) ==> stale == '&')
  {
    hide EntityAt;
    hide GetCharacterRef;
  }

  lemma {:induction false} DecodeVersusIdeal(raw: string, f: Flags, p: nat, out: string)
    requires |out| <= p <= |raw|
    ensures DecodeFrom(raw, f, p, out) == out + Ideal(raw[p..], f) <==> NothingStale(raw, f, p, |out|)
    decreases |raw| - p
  {
    hide DecodeStep;
    hide UnknownEntity;
    if p < |raw| {
      var s := raw[p..];
      var w, n, w' := DecodeStep(s, f, raw[|out|]).0, DecodeStep(s, f, raw[|out|]).1, DecodeStep(s, f, '&').0;
      StaleOnly(s, f, raw[|out|]);
      assert s[n..] == raw[p + n..];
      DecodeVersusIdeal(raw, f, p + n, out + w);
      var d, rest := DecodeFrom(raw, f, p + n, out + w), Ideal(raw[p + n..], f);
      SamePrefix(out, w, w', d, rest);
    } else {
      assert raw[p..] == [] && out + [] == out;
    }
  }

  lemma SamePrefix(out: string, w: string, w': string, d: string, rest: string)
    requires |w| == |w'| && |out + w| <= |d| && d[..|out + w|] == out + w
    ensures d == out + (w' + rest) <==> w == w' && d == out + w + rest
  {
    assert out + (w' + rest) == out + w' + rest;
    if d == out + w' + rest {
      assert w == d[|out|..|out| + |w|] == w';
    }
  }

  /** The in-place pass is the left-to-right decoder if and only if no stale byte shows through. */
  lemma InPlaceIsIdeal(raw: string, f: Flags)
    ensures DecodeFrom(raw, f, 0, []) == Ideal(raw, f) <==> NothingStale(raw, f, 0, 0)
  {
    DecodeVersusIdeal(raw, f, 0, []);
    assert raw[0..] == raw && [] + Ideal(raw, f) == Ideal(raw, f);
  }

  /** Every ampersand starts a numeric reference or one of the five entities, as in a well-formed document. */
  predicate KnownEntities(raw: string) {
    forall i :: 0 <= i < |raw| ==> KnownAt(raw, i)
  }

  predicate KnownAt(raw: string, i: nat)
    requires i < |raw|
  {
    raw[i] == '&' ==> (i + 1 < |raw| && raw[i + 1] == '#') || EntityAt(raw[i..]).Entity?
  }

  lemma {:induction false} KnownNothingStale(raw: string, f: Flags, p: nat, q: nat)
    requires q <= p <= |raw| && KnownEntities(raw)
    ensures NothingStale(raw, f, p, q)
    decreases |raw| - p
  {
    hide DecodeStep, UnknownEntity, KnownEntities;
    if p < |raw| {
      var (w, n) := DecodeStep(raw[p..], f, raw[q]);
      KnownHere(raw, f, p);
      KnownNothingStale(raw, f, p + n, q + |w|);
    }
  }

  lemma KnownHere(raw: string, f: Flags, p: nat)
    requires p < |raw| && KnownEntities(raw)
    ensures !UnknownEntity(raw[p..], f)
  {
    assert KnownAt(raw, p);
    assert raw[p..][0] == raw[p] && (p + 1 < |raw| ==> raw[p..][1] == raw[p + 1]);
  }

  /** So on such texts the in-place pass is the left-to-right decoder. */
  lemma KnownEntitiesDecode(raw: string, f: Flags)
    requires KnownEntities(raw)
    ensures DecodeFrom(raw, f, 0, []) == Ideal(raw, f)
  {
    KnownNothingStale(raw, f, 0, 0);
    InPlaceIsIdeal(raw, f);
  }

  /** The texts on which it is not: an entity, which makes the pass fall behind, directly before an ampersand that
      starts nothing. The stale byte there is the second one of the entity itself. */
  lemma StaleExample()
    ensures DecodeFrom("&lt;&", Flags(true, true, false), 0, []) == "<l"
    ensures Ideal("&lt;&", Flags(true, true, false)) == "<&"
  {
    var f, raw := Flags(true, true, false), "&lt;&";
    assert raw[0..] == raw && raw[4..] == "&" && raw[5..] == "" && raw[4..][1..] == "" && raw[..4] == "&lt;";
    assert raw[1] == 'l' && raw[2] == 't' && |raw| == 5;
    LtAt(raw);
    AmpersandAlone(raw[4..]);
    hide EntityAt;
    assert DecodeStep(raw, f, raw[0]) == ("<", 4) == DecodeStep(raw, f, '&');
    assert DecodeStep(raw[4..], f, 'l') == ("l", 1) && DecodeStep(raw[4..], f, '&') == ("&", 1);
    hide DecodeStep;
    assert DecodeFrom(raw, f, 5, "<l") == "<l";
    assert DecodeFrom(raw, f, 4, "<") == DecodeFrom(raw, f, 5, "<" + "l");
    assert DecodeFrom(raw, f, 0, []) == DecodeFrom(raw, f, 4, [] + "<");
    assert Ideal(raw[4..], f) == "&" + Ideal(raw[4..][1..], f) == "&";
    assert Ideal(raw, f) == "<" + Ideal(raw[4..], f);
  }

  lemma LtAt(s: string)
    requires StartsWith(s, "&lt;")
    ensures EntityAt(s) == Entity('<', 4)
  {
    assert "&lt;"[1] == 'l' && "&quot;"[1] == 'q' && "&amp;"[1] == 'a' && "&apos;"[1] == 'a';
    assert s[1] == 'l';
  }

  lemma AmpersandAlone(s: string)
    requires |s| == 1
    ensures EntityAt(s).NoEntity?
  {
  }

  // ---------- the decoder, text by text ----------

  /** The five names of section 4.6 of XML 1.0, in front of anything. */
  lemma KnownNames(s: string)
    ensures EntityAt("&quot;" + s) == Entity('"', 6) && EntityAt("&amp;" + s) == Entity('&', 5) && EntityAt("&apos;" + s) == Entity('\'', 6)
    ensures EntityAt("&lt;" + s) == Entity('<', 4) && EntityAt("&gt;" + s) == Entity('>', 4)
  {
    var q, m, a, l, g := "&quot;", "&amp;", "&apos;", "&lt;", "&gt;";
    assert q[1] == 'q' && m[1] == 'a' && m[2] == 'm' && a[1] == 'a' && a[2] == 'p' && l[1] == 'l' && g[1] == 'g';
    assert forall i :: 0 <= i < 6 ==> (q + s)[i] == q[i] && (a + s)[i] == a[i];
    assert forall i :: 0 <= i < 5 ==> (m + s)[i] == m[i];
    assert forall i :: 0 <= i < 4 ==> (l + s)[i] == l[i] && (g + s)[i] == g[i];
  }

  lemma IdealStep(name: string, c: char, s: string, f: Flags)
    requires f.entities && EntityAt(name + s) == Entity(c, |name|) && |name| > 1 && name[0] == '&' && name[1] != '#'
    ensures Ideal(name + s, f) == [c] + Ideal(s, f)
  {
    hide EntityAt, GetCharacterRef;
    assert (name + s)[0] == name[0] && (name + s)[1] == name[1] && (name + s)[|name|..] == s;
  }

  /** What each of them stands for, and that decoding then goes on behind it. */
  lemma EntitiesDecode(s: string, f: Flags)
    requires f.entities
    ensures Ideal("&quot;" + s, f) == ['"'] + Ideal(s, f)
    ensures Ideal("&amp;" + s, f) == ['&'] + Ideal(s, f)
    ensures Ideal("&apos;" + s, f) == ['\''] + Ideal(s, f)
    ensures Ideal("&lt;" + s, f) == ['<'] + Ideal(s, f)
    ensures Ideal("&gt;" + s, f) == ['>'] + Ideal(s, f)
  {
    hide Ideal, EntityAt;
    KnownNames(s);
    var q, m, a, l, g := "&quot;", "&amp;", "&apos;", "&lt;", "&gt;";
    assert q[1] == 'q' && m[1] == 'a' && a[1] == 'a' && l[1] == 'l' && g[1] == 'g';
    IdealStep(q, '"', s, f);
    IdealStep(m, '&', s, f);
    IdealStep(a, '\'', s, f);
    IdealStep(l, '<', s, f);
    IdealStep(g, '>', s, f);
  }

  /** An ampersand in front of none of the names and of no '#' stands for itself. */
  lemma OtherAmpersand(s: string, f: Flags)
    requires f.entities && !StartsWith(s, "#") && !StartsWith(s, "quot;") && !StartsWith(s, "amp;") && !StartsWith(s, "apos;")
    requires !StartsWith(s, "lt;") && !StartsWith(s, "gt;")
    ensures Ideal("&" + s, f) == "&" + Ideal(s, f)
  {
    var t := "&" + s;
    NotBehind(s, "quot;", "&quot;");
    NotBehind(s, "amp;", "&amp;");
    NotBehind(s, "apos;", "&apos;");
    NotBehind(s, "lt;", "&lt;");
    NotBehind(s, "gt;", "&gt;");
    assert EntityAt(t).NoEntity?;
    hide EntityAt, GetCharacterRef;
    assert t[1..] == s && (s != [] ==> t[1] == s[0]);
    assert s != [] && s[0] == '#' ==> StartsWith(s, "#");
    hide StartsWith;
  }

  lemma NotBehind(s: string, name: string, entity: string)
    requires !StartsWith(s, name) && entity == "&" + name
    ensures !StartsWith("&" + s, entity)
  {
    if |name| <= |s| {
      var t := "&" + s;
      var i :| 0 <= i < |name| && s[i] != name[i];
      assert entity[i + 1] == name[i] && t[i + 1] == s[i];
    }
  }

  /** Numeric references of up to 8 hexadecimal or 9 decimal digits. */
  lemma ReferencesDecode(ds: string, hex: bool, s: string, f: Flags)
    requires f.entities && ds != [] && AllDigits(ds, hex) && |ds| <= (if hex then 8 else 9)
    ensures Ideal((if hex then "&#x" else "&#") + ds + ";" + s, f) == Utf8(Positional(ds, hex)) + Ideal(s, f)
  {
    hide GetCharacterRef, Utf8, Positional, AllDigits;
    var t := (if hex then "&#x" else "&#") + ds + ";" + s;
    CharacterRefValue(ds, hex, s);
    assert t[0] == '&' && t[1] == '#' && t[|t| - |s|..] == s;
  }

  /** Line ends become line feeds, pairs of either order a single one. */
  lemma LineEndsDecode(s: string, f: Flags)
    requires f.newlines
    ensures Ideal("\r\n" + s, f) == "\n" + Ideal(s, f) && Ideal("\n\r" + s, f) == "\n" + Ideal(s, f)
    ensures s == [] || s[0] != '\n' ==> Ideal("\r" + s, f) == "\n" + Ideal(s, f)
    ensures s == [] || s[0] != '\r' ==> Ideal("\n" + s, f) == "\n" + Ideal(s, f)
  {
    hide EntityAt, GetCharacterRef;
    var a, b, c, d := "\r\n", "\n\r", "\r", "\n";
    assert (a + s)[0] == '\r' && (a + s)[1] == '\n' && (a + s)[2..] == s;
    assert (b + s)[0] == '\n' && (b + s)[1] == '\r' && (b + s)[2..] == s;
    assert (c + s)[0] == '\r' && (c + s)[1..] == s && (s != [] ==> (c + s)[1] == s[0]);
    assert (d + s)[0] == '\n' && (d + s)[1..] == s && (s != [] ==> (d + s)[1] == s[0]);
  }

  /** Every other character stands for itself, and without their flags these do as well. */
  lemma OthersDecode(c: char, s: string, f: Flags)
    requires f.entities ==> c != '&'
    requires f.newlines ==> c != '\r' && c != '\n'
    ensures Ideal([c] + s, f) == [c] + Ideal(s, f) && Ideal([], f) == []
  {
    hide EntityAt, GetCharacterRef;
    assert ([c] + s)[1..] == s;
  }

  // ---------- escaping ----------

  /** Printed form of one character: the full set in attributes, the restricted one in element text. */
  function EscapeChar(c: char, restricted: bool): (r: string)
    ensures 1 <= |r| <= 6
  {
    if c == '&' then "&amp;"
    else if c == '<' then "&lt;"
    else if c == '>' then "&gt;"
    else if c == '"' && !restricted then "&quot;"
    else if c == '\'' && !restricted then "&apos;"
    else [c]
  }

  function Escape(s: string, restricted: bool): (r: string) {
    if s == [] then [] else EscapeChar(s[0], restricted) + Escape(s[1..], restricted)
  }

  /** The printed form of each character, in attribute values and in text. */
  lemma PrintedForms(s: string)
    ensures Escape("&" + s, false) == "&amp;" + Escape(s, false) && Escape("&" + s, true) == "&amp;" + Escape(s, true)
    ensures Escape("<" + s, false) == "&lt;" + Escape(s, false) && Escape("<" + s, true) == "&lt;" + Escape(s, true)
    ensures Escape(">" + s, false) == "&gt;" + Escape(s, false) && Escape(">" + s, true) == "&gt;" + Escape(s, true)
    ensures Escape("\"" + s, false) == "&quot;" + Escape(s, false) && Escape("\"" + s, true) == "\"" + Escape(s, true)
    ensures Escape("'" + s, false) == "&apos;" + Escape(s, false) && Escape("'" + s, true) == "'" + Escape(s, true)
  {
    PrintedForm('&', s);
    PrintedForm('<', s);
    PrintedForm('>', s);
    PrintedForm('"', s);
    PrintedForm('\'', s);
  }

  lemma PrintedForm(c: char, s: string)
    ensures Escape([c] + s, false) == EscapeChar(c, false) + Escape(s, false) && Escape([c] + s, true) == EscapeChar(c, true) + Escape(s, true)
    ensures c !in "&<>\"'" ==> Escape([c] + s, false) == [c] + Escape(s, false) && Escape([c] + s, true) == [c] + Escape(s, true)
  {
    assert ([c] + s)[1..] == s;
    assert "&<>\"'" == ['&', '<', '>', '"', '\''];
  }

  /** A CR LF or LF CR pair at the front, which line end processing folds into one LF. */
  predicate FoldsAt(s: string) {
    |s| > 1 && ((s[0] == CR && s[1] == LF) || (s[0] == LF && s[1] == CR))
  }

  /** What is left of a text after its first decoding step. */
  function AfterStep(s: string): string
    requires s != []
  {
    if FoldsAt(s) then s[2..] else s[1..]
  }

  /** Line ends as section 2.11 of XML 1.0 wants them; the code also folds LF CR. */
  function Normalize(s: string): (r: string) {
    if s == [] then [] else [if s[0] == CR then LF else s[0]] + Normalize(AfterStep(s))
  }

  predicate CrFree(s: string) {
    forall i :: 0 <= i < |s| ==> s[i] != CR
  }

  lemma {:induction false} NormalizeIsCrFree(s: string)
    ensures CrFree(Normalize(s))
  {
    if s != [] {
      NormalizeIsCrFree(AfterStep(s));
    }
  }

  lemma {:induction false} NormalizeCrFree(s: string)
    requires CrFree(s)
    ensures Normalize(s) == s
  {
    if s != [] {
      assert AfterStep(s) == s[1..];
      NormalizeCrFree(s[1..]);
    }
  }

  lemma NormalizeIsIdentity(s: string)
    ensures Normalize(s) == s <==> CrFree(s)
  {
    hide Normalize;
    NormalizeIsCrFree(s);
    if CrFree(s) {
      NormalizeCrFree(s);
    }
  }

  /** The printed form contains no terminator of its context: no '<' and no '>' in text, none of these and no quote in an attribute.
      It is NUL-free when the text is. */
  lemma {:induction false} EscapeHides(s: string, restricted: bool, c: char)
    requires c == '<' || c == '>' || ((c == '"' || c == '\'') && !restricted) || (c == NUL && NulFree(s))
    ensures forall i :: 0 <= i < |Escape(s, restricted)| ==> Escape(s, restricted)[i] != c
  {
    if s != [] {
      EscapeHides(s[1..], restricted, c);
    }
  }

  /** The first decoding step on the printed form of `s`. */
  lemma DecodeEscapedStep(s: string, restricted: bool, stale: char)
    requires s != []
    ensures Escape(s, restricted) != []
    ensures DecodeStep(Escape(s, restricted), Flags(true, true, false), stale)
              == ([if s[0] == CR then LF else s[0]], if FoldsAt(s) then 2 else |EscapeChar(s[0], restricted)|)
  {
    var h := EscapeChar(s[0], restricted);
    if |h| == 1 {
      DecodePlainStep(s, restricted, stale);
    } else {
      assert StartsWith(Escape(s, restricted), h);
      DecodeEntityStep(Escape(s, restricted), s[0], h, stale);
    }
  }

  lemma DecodeEntityStep(e: string, c: char, h: string, stale: char)
    requires |h| > 1 && StartsWith(e, h) && (h == EscapeChar(c, true) || h == EscapeChar(c, false))
    ensures DecodeStep(e, Flags(true, true, false), stale) == ([c], |h|) && c != CR && c != LF
  {
    hide EntityAt;
    hide GetCharacterRef;
    EntityOf(e, c, h);
    assert e[0] == h[0] && e[1] == h[1];
    hide StartsWith;
  }

  lemma DecodePlainStep(s: string, restricted: bool, stale: char)
    requires s != [] && |EscapeChar(s[0], restricted)| == 1
    ensures Escape(s, restricted) != []
    ensures DecodeStep(Escape(s, restricted), Flags(true, true, false), stale)
              == ([if s[0] == CR then LF else s[0]], if FoldsAt(s) then 2 else 1)
  {
    var e, rest := Escape(s, restricted), Escape(s[1..], restricted);
    assert e == [s[0]] + rest && s[0] != '&';
    SecondChar(s[1..], restricted);
    assert |e| > 1 ==> e[1] == rest[0];
    hide Escape;
    hide EscapeChar;
    hide EntityAt;
    hide GetCharacterRef;
  }

  lemma SecondChar(s: string, restricted: bool)
    ensures s == [] <==> Escape(s, restricted) == []
    ensures s != [] && (s[0] == CR || s[0] == LF) ==> Escape(s, restricted)[0] == s[0]
    ensures s != [] && (Escape(s, restricted)[0] == CR || Escape(s, restricted)[0] == LF) ==> Escape(s, restricted)[0] == s[0]
  {
  }

  lemma EntityOf(e: string, c: char, h: string)
    requires |h| > 1 && StartsWith(e, h) && (h == EscapeChar(c, true) || h == EscapeChar(c, false))
    ensures EntityAt(e) == Entity(c, |h|)
  {
    assert e[1] == h[1] && e[2] == h[2];
    assert "&quot;"[1] == 'q' && "&lt;"[1] == 'l' && "&gt;"[1] == 'g';
    assert "&amp;"[1] == 'a' && "&amp;"[2] == 'm' && "&apos;"[1] == 'a' && "&apos;"[2] == 'p';
  }

  lemma EscapeAfter(s: string, restricted: bool)
    requires s != []
    ensures |EscapeChar(s[0], restricted)| <= |Escape(s, restricted)|
    ensures Escape(s, restricted)[|EscapeChar(s[0], restricted)|..] == Escape(s[1..], restricted)
  {
    hide EscapeChar;
  }

  lemma EscapeAfterFold(s: string, restricted: bool)
    requires FoldsAt(s)
    ensures 2 <= |Escape(s, restricted)| && Escape(s, restricted)[2..] == Escape(s[2..], restricted)
  {
    assert EscapeChar(s[0], restricted) == [s[0]] && EscapeChar(s[1], restricted) == [s[1]];
    hide EscapeChar;
    assert s[1..][0] == s[1] && s[1..][1..] == s[2..];
    EscapeAfter(s, restricted);
    EscapeAfter(s[1..], restricted);
    hide Escape;
    assert Escape(s, restricted)[1..][1..] == Escape(s, restricted)[2..];
  }

  lemma Associates(a: string, b: string, c: string)
    ensures (a + b) + c == a + (b + c)
  {
  }

  lemma DecodeUnfold(raw: string, f: Flags, p: nat, out: string)
    requires |out| <= p < |raw|
    ensures var r := DecodeStep(raw[p..], f, raw[|out|]);
            raw[p..][r.1..] == raw[p + r.1..] && DecodeFrom(raw, f, p, out) == DecodeFrom(raw, f, p + r.1, out + r.0)
  {
    hide DecodeStep;
  }

  lemma NormalizeUnfold(s: string)
    requires s != []
    ensures Normalize(s) == [if s[0] == CR then LF else s[0]] + Normalize(AfterStep(s))
  {
  }

  lemma DecodeFinished(raw: string, f: Flags, out: string)
    requires |out| <= |raw|
    ensures DecodeFrom(raw, f, |raw|, out) == out + Normalize([])
  {
    assert out + [] == out;
  }

  /** Decoding the printed form gives the text back with its line ends normalised. */
  lemma {:induction false} DecodeEscaped(raw: string, p: nat, out: string, s: string, restricted: bool)
    requires |out| <= p <= |raw| && raw[p..] == Escape(s, restricted)
    ensures DecodeFrom(raw, Flags(true, true, false), p, out) == out + Normalize(s)
    decreases |raw| - p
  {
    hide DecodeStep;
    hide DecodeFrom;
    hide Normalize;
    hide EscapeChar;
    hide FoldsAt;
    var f := Flags(true, true, false);
    if s == [] {
      DecodeFinished(raw, f, out);
    } else {
      DecodeEscapedStep(s, restricted, raw[|out|]);
      if FoldsAt(s) {
        EscapeAfterFold(s, restricted);
      } else {
        EscapeAfter(s, restricted);
      }
      DecodeUnfold(raw, f, p, out);
      NormalizeUnfold(s);
      var w, n := DecodeStep(raw[p..], f, raw[|out|]).0, DecodeStep(raw[p..], f, raw[|out|]).1;
      DecodeEscaped(raw, p + n, out + w, AfterStep(s), restricted);
      Associates(out, w, Normalize(AfterStep(s)));
    }
  }

  /** Without entity processing the only decoding is that of line ends. */
  lemma {:induction false} DecodePlain(raw: string, p: nat, out: string)
    requires |out| <= p <= |raw|
    ensures DecodeFrom(raw, Flags(false, true, false), p, out) == out + Normalize(raw[p..])
    decreases |raw| - p
  {
    hide DecodeStep;
    hide DecodeFrom;
    hide Normalize;
    hide FoldsAt;
    var f := Flags(false, true, false);
    if p == |raw| {
      assert raw[p..] == [];
      DecodeFinished(raw, f, out);
    } else {
      var s := raw[p..];
      PlainStep(s, raw[|out|]);
      DecodeUnfold(raw, f, p, out);
      NormalizeUnfold(s);
      var w, n := DecodeStep(s, f, raw[|out|]).0, DecodeStep(s, f, raw[|out|]).1;
      DecodePlain(raw, p + n, out + w);
      Associates(out, w, Normalize(AfterStep(s)));
    }
  }

  lemma PlainStep(s: string, stale: char)
    requires s != []
    ensures DecodeStep(s, Flags(false, true, false), stale) == ([if s[0] == CR then LF else s[0]], if FoldsAt(s) then 2 else 1)
  {
  }

  lemma {:induction false} DecodeRaw(raw: string, p: nat, out: string)
    requires |out| == p <= |raw| && out == raw[..p]
    ensures DecodeFrom(raw, RAW, p, out) == raw
    decreases |raw| - p
  {
    if p < |raw| {
      assert raw[..p + 1] == out + [raw[p]];
      DecodeRaw(raw, p + 1, out + [raw[p]]);
    }
  }

  lemma CutNulFree(s: string)
    requires NulFree(s)
    ensures Cut(s) == s
  {
    CutIsUnique(s, |s|);
  }

  lemma NameValue(raw: string)
    requires NulFree(raw)
    ensures Value(raw, RAW) == raw
  {
    DecodeRaw(raw, 0, []);
    CutNulFree(raw);
  }

  lemma {:induction false} NormalizeNulFree(s: string)
    requires NulFree(s)
    ensures NulFree(Normalize(s))
  {
    if s != [] {
      NormalizeNulFree(AfterStep(s));
    }
  }

  /** Reading back what the printer wrote for `s` yields `s` if and only if `s` has no carriage return. */
  lemma DecodeUndoesEscape(s: string, restricted: bool)
    requires NulFree(s)
    ensures Value(Escape(s, restricted), Flags(true, true, false)) == Normalize(s)
    ensures Value(Escape(s, restricted), Flags(true, true, false)) == s <==> CrFree(s)
  {
    var raw := Escape(s, restricted);
    assert raw[0..] == raw && [] + Normalize(s) == Normalize(s);
    DecodeEscaped(raw, 0, [], s, restricted);
    NormalizeNulFree(s);
    CutNulFree(Normalize(s));
    NormalizeIsIdentity(s);
  }

  lemma DecodeUndoesNothing(s: string)
    requires NulFree(s)
    ensures Value(s, Flags(false, true, false)) == Normalize(s)
    ensures Value(s, Flags(false, true, false)) == s <==> CrFree(s)
  {
    assert s[0..] == s && [] + Normalize(s) == Normalize(s);
    DecodePlain(s, 0, []);
    NormalizeNulFree(s);
    CutNulFree(Normalize(s));
    NormalizeIsIdentity(s);
  }

  // ---------- white space ----------

  /** Length of the run of non-blank characters at the front. */
  function WordLength(s: string): (k: nat)
    ensures k <= |s| && (k < |s| ==> IsWhiteSpace(s[k]))
    ensures forall i :: 0 <= i < k ==> !IsWhiteSpace(s[i])
  {
    if s == [] || IsWhiteSpace(s[0]) then 0 else 1 + WordLength(s[1..])
  }

  function Words(s: string): (r: seq<string>)
    decreases |s|
  {
    var t := SkipWS(s);
    if t == [] then [] else [t[..WordLength(t)]] + Words(t[WordLength(t)..])
  }

  function JoinWords(ws: seq<string>): (r: string) {
    if ws == [] then [] else if |ws| == 1 then ws[0] else ws[0] + [' '] + JoinWords(ws[1..])
  }

  predicate IsWord(w: string) {
    w != [] && forall j :: 0 <= j < |w| ==> !IsWhiteSpace(w[j])
  }

  predicate AreWords(ws: seq<string>) {
    forall i :: 0 <= i < |ws| ==> IsWord(ws[i])
  }

  /** Blanks collapsed: the words of the text joined by single spaces. */
  function Collapse(s: string): string {
    JoinWords(Words(s))
  }

  lemma {:induction false} WordsAreWords(s: string)
    ensures AreWords(Words(s))
    decreases |s|
  {
    hide Words;
    hide SkipWS;
    hide WordLength;
    hide IsWord;
    WordsOfNothing(s);
    if SkipWS(s) != [] {
      WordsStep(s);
      WordsAreWords(SkipWS(s)[WordLength(SkipWS(s))..]);
    }
  }

  lemma {:induction false} WordLengthIs(w: string, rest: string)
    requires forall j :: 0 <= j < |w| ==> !IsWhiteSpace(w[j])
    requires rest == [] || IsWhiteSpace(rest[0])
    ensures WordLength(w + rest) == |w|
  {
    if w != [] {
      assert (w + rest)[1..] == w[1..] + rest;
      WordLengthIs(w[1..], rest);
    } else {
      assert w + rest == rest;
    }
  }

  lemma WordsSplit(w: string, rest: string)
    requires IsWord(w) && (rest == [] || IsWhiteSpace(rest[0]))
    ensures Words(w + rest) == [w] + Words(rest)
  {
    WordLengthIs(w, rest);
    hide WordLength;
    assert (w + rest)[0] == w[0] && SkipWS(w + rest) == w + rest;
    hide SkipWS;
    assert (w + rest)[..|w|] == w && (w + rest)[|w|..] == rest;
  }

  lemma WordsAfterBlank(rest: string)
    requires rest != [] && IsWhiteSpace(rest[0])
    ensures Words(rest) == Words(rest[1..])
  {
    assert SkipWS(rest) == SkipWS(rest[1..]);
    hide SkipWS;
    hide WordLength;
  }

  lemma {:induction false} WordsOfJoin(ws: seq<string>)
    requires AreWords(ws)
    ensures Words(JoinWords(ws)) == ws
    ensures ws != [] ==> JoinWords(ws) != [] && !IsWhiteSpace(JoinWords(ws)[0])
  {
    hide Words;
    if ws == [] {
      WordsOfNothing([]);
    } else {
      var w := ws[0];
      assert IsWord(w) && AreWords(ws[1..]);
      hide AreWords;
      var rest := if |ws| == 1 then [] else [' '] + JoinWords(ws[1..]);
      assert JoinWords(ws) == w + rest;
      WordsOfJoin(ws[1..]);
      WordsSplit(w, rest);
      if |ws| > 1 {
        WordsAfterBlank(rest);
        assert rest[1..] == JoinWords(ws[1..]);
      } else {
        WordsOfNothing(rest);
      }
      assert ws == [w] + ws[1..];
    }
  }

  lemma WordsOfNothing(s: string)
    ensures Words(s) == [] <==> SkipWS(s) == []
  {
  }

  lemma WordsStep(s: string)
    requires SkipWS(s) != []
    ensures var t := SkipWS(s); var k := WordLength(t);
            t == t[..k] + t[k..] && Words(s) == [t[..k]] + Words(t[k..]) && IsWord(t[..k])
  {
    hide SkipWS;
    hide WordLength;
    var t := SkipWS(s);
    Halved(t, WordLength(t));
    FirstWordIs(t);
    hide IsWord;
  }

  lemma Halved(t: string, k: nat)
    requires k <= |t|
    ensures t == t[..k] + t[k..]
  {
  }

  lemma FirstWordIs(t: string)
    requires t != [] && !IsWhiteSpace(t[0])
    ensures IsWord(t[..WordLength(t)])
  {
    assert WordLength(t) > 0;
  }

  lemma {:induction false} LastOfJoin(ws: seq<string>)
    requires AreWords(ws) && ws != []
    ensures JoinWords(ws) != [] && !IsWhiteSpace(JoinWords(ws)[|JoinWords(ws)| - 1])
  {
    assert IsWord(ws[0]);
    if |ws| > 1 {
      LastOfJoin(ws[1..]);
    }
  }

  /** Collapsing is idempotent and leaves no leading or trailing blank. */
  lemma CollapseIdempotent(s: string)
    ensures Collapse(Collapse(s)) == Collapse(s)
    ensures var r := Collapse(s); r != [] ==> !IsWhiteSpace(r[0]) && !IsWhiteSpace(r[|r| - 1])
  {
    var ws := Words(s);
    WordsAreWords(s);
    hide Words;
    hide AreWords;
    WordsOfJoin(ws);
    if ws != [] {
      LastOfJoin(ws);
    }
  }

  lemma {:induction false} JoinNulFree(ws: seq<string>)
    requires forall i :: 0 <= i < |ws| ==> NulFree(ws[i])
    ensures NulFree(JoinWords(ws))
  {
    if |ws| > 1 {
      JoinNulFree(ws[1..]);
    }
  }

  lemma {:induction false} WordsNulFree(s: string)
    requires NulFree(s)
    ensures forall i :: 0 <= i < |Words(s)| ==> NulFree(Words(s)[i])
    decreases |s|
  {
    hide Words;
    hide SkipWS;
    hide WordLength;
    WordsOfNothing(s);
    if SkipWS(s) != [] {
      WordsStep(s);
      WordsNulFree(SkipWS(s)[WordLength(SkipWS(s))..]);
    }
  }

  lemma CollapseNulFree(s: string)
    requires NulFree(s)
    ensures NulFree(Collapse(s))
  {
    WordsNulFree(s);
    JoinNulFree(Words(s));
  }

  /** What the collapsing loop writes for the unread text `t` once the leading blanks are gone. */
  function CollapseTail(t: string): (r: string)
    ensures |r| <= |t|
    decreases |t|
  {
    if t == [] then []
    else if IsWhiteSpace(t[0]) then
      var u := SkipWS(t);
      if u == [] then [] else [' ', u[0]] + CollapseTail(u[1..])
    else [t[0]] + CollapseTail(t[1..])
  }

  lemma {:induction false} CollapseTailOfWord(w: string, rest: string)
    requires w == [] || IsWord(w)
    ensures CollapseTail(w + rest) == w + CollapseTail(rest)
  {
    if w != [] {
      assert (w + rest)[1..] == w[1..] + rest;
      CollapseTailOfWord(w[1..], rest);
    } else {
      assert w + rest == rest;
    }
  }

  lemma CollapseTailAtBlank(rest: string)
    requires rest == [] || IsWhiteSpace(rest[0])
    ensures CollapseTail(rest) == if SkipWS(rest) == [] then [] else [' '] + CollapseTail(SkipWS(rest))
  {
    var u := SkipWS(rest);
    hide SkipWS;
    if u != [] {
      assert CollapseTail(u) == [u[0]] + CollapseTail(u[1..]);
      assert [' ', u[0]] + CollapseTail(u[1..]) == [' '] + ([u[0]] + CollapseTail(u[1..]));
    }
  }

  /** The loop computes Collapse. */
  lemma {:induction false} CollapseTailIsCollapse(s: string)
    ensures CollapseTail(SkipWS(s)) == Collapse(s)
    decreases |s|
  {
    hide SkipWS;
    hide WordLength;
    hide Words;
    hide CollapseTail;
    hide IsWord;
    WordsOfNothing(s);
    var t := SkipWS(s);
    if t == [] {
      CollapseTailOfNothing(t);
    } else {
      var w, rest := t[..WordLength(t)], t[WordLength(t)..];
      WordsStep(s);
      WordsOfNothing(rest);
      CollapseTailOfWord(w, rest);
      CollapseTailAtBlank(rest);
      CollapseTailIsCollapse(rest);
      assert Words(s)[1..] == Words(rest);
      Associates(w, [' '], JoinWords(Words(rest)));
    }
  }

  lemma CollapseTailOfNothing(t: string)
    requires t == []
    ensures CollapseTail(t) == []
  {
  }

  // ---------- scanning ----------

  /** Where `t` first occurs in `s`. */
  function Find(s: string, t: string): (r: Option<nat>)
    ensures r.Some? ==> r.value <= |s| && StartsWith(s[r.value..], t)
  {
    if StartsWith(s, t) then Some(0)
    else if s == [] then None
    else match Find(s[1..], t)
      case None => None
      case Some(k) => Some(k + 1)
  }

  lemma {:induction false} FindIs(s: string, t: string, k: nat)
    requires k <= |s| && StartsWith(s[k..], t) && forall i :: 0 <= i < k ==> !StartsWith(s[i..], t)
    ensures Find(s, t) == Some(k)
  {
    assert s[0..] == s;
    if k > 0 {
      assert s[1..][k - 1..] == s[k..];
      forall i | 0 <= i < k - 1
        ensures !StartsWith(s[1..][i..], t)
      {
        assert s[1..][i..] == s[i + 1..];
      }
      FindIs(s[1..], t, k - 1);
    }
  }

  lemma {:induction false} FindNone(s: string, t: string)
    requires t != [] && forall i :: 0 <= i < |s| ==> !StartsWith(s[i..], t)
    ensures Find(s, t) == None
  {
    if s != [] {
      assert s[0..] == s;
      forall i | 0 <= i < |s| - 1
        ensures !StartsWith(s[1..][i..], t)
      {
        assert s[1..][i..] == s[i + 1..];
      }
      FindNone(s[1..], t);
    }
  }

  /** Length of the name at the front of `s`; 0 when none starts there. */
  function NameLength(s: string): (k: nat)
    ensures k <= |s|
    ensures k > 0 <==> s != [] && IsNameStartChar(s[0])
    ensures forall i :: 0 <= i < k ==> IsNameChar(s[i])
    ensures 0 < k < |s| ==> !IsNameChar(s[k])
  {
    if s == [] || !IsNameStartChar(s[0]) then 0 else 1 + NameTail(s[1..])
  }

  function NameTail(s: string): (k: nat)
    ensures k <= |s|
    ensures forall i :: 0 <= i < k ==> IsNameChar(s[i])
    ensures k < |s| ==> !IsNameChar(s[k])
  {
    if s == [] || !IsNameChar(s[0]) then 0 else 1 + NameTail(s[1..])
  }

  lemma {:induction false} NameTailIs(s: string, k: nat)
    requires k <= |s| && (forall i :: 0 <= i < k ==> IsNameChar(s[i])) && (k < |s| ==> !IsNameChar(s[k]))
    ensures NameTail(s) == k
  {
    if k > 0 {
      NameTailIs(s[1..], k - 1);
    }
  }

  lemma NameLengthIs(s: string, k: nat)
    requires 0 < k <= |s| && IsNameStartChar(s[0])
    requires forall i :: 0 <= i < k ==> IsNameChar(s[i])
    requires k < |s| ==> !IsNameChar(s[k])
    ensures NameLength(s) == k
  {
    NameTailIs(s[1..], k - 1);
  }
}
