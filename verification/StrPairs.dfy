/** tinyxml2's StrPair: a lazily decoded window [start, end] into a buffer shared with every other StrPair of the
    same parse. Decoding happens in place, the first time the string is asked for. */
module StrPairs {
  import opened XmlUtil
  import opened XmlText

  /** A `char*` into a known buffer; Null is the null pointer. */
  datatype Ptr = Null | At(index: nat)

  // ---------- C string comparison ----------

  /** Whether the C string at mem[p] starts with `t`; reads no further than the NUL at mem[n]. */
  method StartsWithAt(mem: array<char>, p: nat, t: string, ghost n: nat) returns (b: bool)
    requires p <= n < mem.Length && mem[n] == NUL && NulFree(t)
    ensures b <==> StartsWith(mem[p..n], t)
  {
    var k := 0;
    while k < |t| && mem[p + k] == t[k]
      invariant k <= |t| && p + k <= n
      invariant forall i :: 0 <= i < k ==> mem[p + i] == t[i]
    {
      k := k + 1;
    }
    b := k == |t|;
    if k < |t| && p + k < n {
      assert mem[p..n][k] != t[k];
    }
  }

  /** StringEqual without a length limit: two C strings are compared up to their NULs. */
  method StringEqual(mem: array<char>, p: nat, q: nat, ghost m: nat, ghost n: nat) returns (b: bool)
    requires p <= m < mem.Length && q <= n < mem.Length && mem[m] == NUL && mem[n] == NUL
    requires NulFree(mem[p..m]) && NulFree(mem[q..n])
    ensures b <==> mem[p..m] == mem[q..n]
  {
    hide NulFree;
    if p == q {
      OneEnd(mem, p, m, n);
      return true;
    }
    var k := 0;
    while mem[p + k] == mem[q + k] && mem[p + k] != NUL
      invariant p + k <= m && q + k <= n
      invariant mem[p..p + k] == mem[q..q + k]
      decreases m - p - k
    {
      EndsAt(mem, p, p + k, m);
      EndsAt(mem, q, q + k, n);
      k := k + 1;
    }
    b := mem[p + k] == mem[q + k];
    TakeOf(mem, p, p + k, m);
    TakeOf(mem, q, q + k, n);
    FirstDifference(mem[p..m], mem[q..n], k);
    EndsAt(mem, p, p + k, m);
    EndsAt(mem, q, q + k, n);
  }

  /** The text mem[p..n] reaches up to the first NUL. */
  lemma EndsAt(mem: array<char>, p: nat, at: nat, n: nat)
    requires p <= at <= n < mem.Length && mem[n] == NUL && NulFree(mem[p..n])
    ensures at == n <==> mem[at] == NUL
    ensures at < n ==> mem[p..n][at - p] == mem[at]
  {
  }

  lemma OneEnd(mem: array<char>, p: nat, m: nat, n: nat)
    requires p <= m < mem.Length && p <= n < mem.Length && mem[m] == NUL && mem[n] == NUL
    requires NulFree(mem[p..m]) && NulFree(mem[p..n])
    ensures m == n
  {
    assert mem[p..][..m - p] == mem[p..m] && mem[p..][..n - p] == mem[p..n];
    CutIsUnique(mem[p..], m - p);
    CutIsUnique(mem[p..], n - p);
  }

  lemma FirstDifference(s: string, t: string, k: nat)
    requires k <= |s| && k <= |t| && s[..k] == t[..k]
    ensures s == t <==> s[k..] == t[k..]
    ensures k < |s| && k < |t| && s[k] != t[k] ==> s != t
    ensures (k == |s|) != (k == |t|) ==> s != t
  {
    assert s == s[..k] + s[k..] && t == t[..k] + t[k..];
  }

  // ---------- entities ----------

  const NUM_ENTITIES: nat := 5

  function Pattern(i: nat): (r: string)
    requires i < NUM_ENTITIES
    ensures NulFree(r) && 2 <= |r| <= 4
  {
    if i == 0 then "quot" else if i == 1 then "amp" else if i == 2 then "apos" else if i == 3 then "lt" else "gt"
  }

  function EntityValue(i: nat): char
    requires i < NUM_ENTITIES
  {
    if i == 0 then '"' else if i == 1 then '&' else if i == 2 then '\'' else if i == 3 then '<' else '>'
  }

  predicate EntityMatches(s: string, i: nat)
    requires i < NUM_ENTITIES
  {
    StartsWith(s, "&" + Pattern(i) + ";")
  }

  lemma FirstMatch(s: string, i: nat)
    requires i < NUM_ENTITIES && EntityMatches(s, i) && forall j :: 0 <= j < i ==> !EntityMatches(s, j)
    ensures EntityAt(s) == Entity(EntityValue(i), |Pattern(i)| + 2)
  {
    EntityTexts();
    hide StartsWith;
    assert i > 0 ==> !EntityMatches(s, 0);
    assert i > 1 ==> !EntityMatches(s, 1);
    assert i > 2 ==> !EntityMatches(s, 2);
    assert i > 3 ==> !EntityMatches(s, 3);
  }

  lemma NoMatch(s: string)
    requires forall j :: 0 <= j < NUM_ENTITIES ==> !EntityMatches(s, j)
    ensures EntityAt(s).NoEntity?
  {
    EntityTexts();
    hide StartsWith;
    assert !EntityMatches(s, 0) && !EntityMatches(s, 1) && !EntityMatches(s, 2) && !EntityMatches(s, 3) && !EntityMatches(s, 4);
  }

  lemma EntityTexts()
    ensures "&" + Pattern(0) + ";" == "&quot;" && "&" + Pattern(1) + ";" == "&amp;" && "&" + Pattern(2) + ";" == "&apos;"
    ensures "&" + Pattern(3) + ";" == "&lt;" && "&" + Pattern(4) + ";" == "&gt;"
  {
  }

  /** The table search of GetStr. */
  method FindEntity(mem: array<char>, p: nat, ghost n: nat) returns (r: Entity)
    requires p < n < mem.Length && mem[n] == NUL && mem[p] == '&'
    ensures r == EntityAt(mem[p..n])
  {
    hide EntityAt;
    hide EntityMatches;
    hide Pattern;
    hide EntityValue;
    ghost var s := mem[p..n];
    for i := 0 to NUM_ENTITIES
      invariant forall j :: 0 <= j < i ==> !EntityMatches(s, j)
    {
      var same := StartsWithAt(mem, p + 1, Pattern(i), n);
      MatchParts(s, mem[p + 1..n], i);
      if same && mem[p + |Pattern(i)| + 1] == ';' {
        FirstMatch(s, i);
        return Entity(EntityValue(i), |Pattern(i)| + 2);
      }
    }
    NoMatch(s);
    return NoEntity;
  }

  lemma MatchParts(s: string, tail: string, i: nat)
    requires i < NUM_ENTITIES && s != [] && s[0] == '&' && tail == s[1..]
    ensures EntityMatches(s, i) <==>
              StartsWith(tail, Pattern(i)) && |Pattern(i)| + 1 < |s| && s[|Pattern(i)| + 1] == ';'
  {
    var w := Pattern(i);
    hide Pattern;
    var t := "&" + w + ";";
    assert t[0] == '&' && t[|w| + 1] == ';' && forall j :: 0 <= j < |w| ==> t[j + 1] == w[j];
    if EntityMatches(s, i) {
      assert s[|w| + 1] == t[|w| + 1];
      forall j | 0 <= j < |w|
        ensures tail[j] == w[j]
      {
        assert s[j + 1] == t[j + 1];
      }
    }
    if StartsWith(tail, w) && |w| + 1 < |s| && s[|w| + 1] == ';' {
      forall j | 0 <= j < |t|
        ensures s[j] == t[j]
      {
        if 0 < j <= |w| {
          assert tail[j - 1] == w[j - 1];
        }
      }
    }
  }

  // ---------- numeric references ----------

  /** strchr: the first `c` in the C string at mem[p], or n when there is none. */
  method StrChr(mem: array<char>, p: nat, c: char, base: nat, ghost n: nat) returns (k: nat)
    requires base <= p <= n < mem.Length && mem[n] == NUL && NulFree(mem[base..n]) && c != NUL
    ensures p <= k <= n && k - base == IndexOf(mem[base..n], c, p - base)
  {
    k := p;
    while mem[k] != c && mem[k] != NUL
      invariant p <= k <= n
      invariant IndexOf(mem[base..n], c, p - base) == IndexOf(mem[base..n], c, k - base)
      decreases n - k
    {
      k := k + 1;
    }
    assert k < n ==> mem[base..n][k - base] == mem[k];
  }

  /** GetCharacterRef with its strchr and its right-to-left digit loop. `buf` receives the bytes. */
  method GetCharacterReference(mem: array<char>, p: nat, buf: array<char>, ghost n: nat) returns (adjusted: Ptr, length: nat)
    requires p + 1 < n < mem.Length && mem[n] == NUL && NulFree(mem[p..n]) && mem[p] == '&' && mem[p + 1] == '#'
    requires buf != mem && buf.Length == 10
    modifies buf
    ensures var r := GetCharacterRef(mem[p..n]);
            if r.NoRef? then adjusted == Null
            else adjusted == At(p + r.consumed) && length == |r.out| && buf[..length] == r.out
  {
    ghost var s := mem[p..n];
    assert s[0] == '&' && s[1] == '#' && (p + 2 < n ==> s[2] == mem[p + 2]);
    length := 0;
    if mem[p + 2] == NUL {
      assert p + 2 == n;
      return At(p + 1), 0;
    }
    var hex := mem[p + 2] == 'x';
    var from := if hex then p + 3 else p + 2;
    if mem[from] == NUL {
      assert from == n;
      return Null, 0;
    }
    var semi := StrChr(mem, from, ';', p, n);
    if mem[semi] == NUL {
      assert semi == n;
      return Null, 0;
    }
    assert s[semi - p] == ';' && semi < n;
    var stop := if hex then 'x' else '#';
    assert s[from - 1 - p] == stop;
    var code := ScanDigits(mem, p, from, semi, stop, hex, n);
    if code.None? {
      return Null, 0;
    }
    length := ConvertUTF32ToUTF8(code.value, buf);
    adjusted := At(semi + 1);
  }

  /** The loop of GetCharacterRef over the digits, from the semicolon leftwards. */
  method ScanDigits(mem: array<char>, base: nat, from: nat, semi: nat, stop: char, hex: bool, ghost n: nat)
    returns (r: Option<int>)
    requires base < from <= semi < n < mem.Length && mem[from - 1] == stop
    ensures mem[base..n][from - 1 - base] == stop && r == ScanLeft(mem[base..n], semi - 1 - base, stop, hex, 1, 0)
  {
    ghost var s := mem[base..n];
    assert s[from - 1 - base] == stop;
    var q, mult, ucs := semi - 1, 1, 0;
    while mem[q] != stop
      invariant from - 1 <= q < semi && 0 <= ucs < TWO64
      invariant ScanLeft(s, q - base, stop, hex, mult, ucs) == ScanLeft(s, semi - 1 - base, stop, hex, 1, 0)
      decreases q
    {
      assert s[q - base] == mem[q] && q >= from;
      match Digit(mem[q], hex) {
        case None => return None;
        case Some(d) =>
          ucs := (ucs + mult * d % TWO32) % TWO64;
          mult := TimesBase(mult, hex) % TWO32;
          q := q - 1;
      }
    }
    assert s[q - base] == stop;
    return Some(ucs);
  }

  lemma TakeOf(buf: array<char>, p: nat, at: nat, n: nat)
    requires p <= at <= n <= buf.Length
    ensures buf[p..n][..at - p] == buf[p..at]
  {
  }

  // ---------- StrPair ----------

  class StrPair {
    var mem: array?<char>  // what start and end point into; null in an empty pair
    var start: nat
    var end: nat
    var flags: Flags
    var needsFlush: bool
    var needsDelete: bool

    ghost predicate Valid()
      reads this, mem
    {
      mem != null ==>
        && start <= end < mem.Length
        && (if needsFlush then NulFree(mem[start..end]) else mem[end] == NUL)
        && !(needsDelete && (flags.collapse || needsFlush))
    }

    /** The string a call of GetStr gives, whether or not it has been called before. */
    ghost function View(): (r: string)
      reads this, mem
      requires Valid() && mem != null
      ensures NulFree(r)
    {
      if needsFlush then Value(mem[start..end], flags) else Cut(mem[start..end])
    }

    constructor ()
      ensures Valid() && mem == null && start == 0 && end == 0
    {
      mem, start, end, flags, needsFlush, needsDelete := null, 0, 0, RAW, false, false;
    }

    predicate Empty()
      reads this
    {
      mem == null || start == end
    }

    method Reset()
      modifies this
      ensures Valid() && mem == null && start == 0 && end == 0 && flags == RAW && !needsFlush && !needsDelete
    {
      mem, start, end, flags, needsFlush, needsDelete := null, 0, 0, RAW, false, false;
    }

    method Set(buf: array<char>, s: nat, e: nat, f: Flags)
      requires s <= e < buf.Length && NulFree(buf[s..e])
      modifies this
      ensures Valid() && mem == buf && start == s && end == e && flags == f && needsFlush && !needsDelete
      ensures View() == Value(buf[s..e], f)
    {
      Reset();
      mem, start, end, flags, needsFlush := buf, s, e, f, true;
    }

    /** A private copy of `text`; nothing is decoded later. */
    method SetStr(text: string)
      requires NulFree(text)
      modifies this
      ensures Valid() && mem != null && fresh(mem) && !needsFlush && needsDelete
      ensures View() == text
    {
      Reset();
      var n := |text|;
      var copy := new char[n + 1](i => if 0 <= i < n then text[i] else NUL);
      mem, start, end, needsDelete := copy, 0, n, true;
      assert copy[0..n] == text;
      CutNulFree(text);
    }

    /** Moves the string to `other`, which must be empty. */
    method TransferTo(other: StrPair)
      requires Valid()
      requires this != other ==> other.mem == null
      modifies this, other
      ensures this == other ==> unchanged(this)
      ensures this != other ==>
                other.Valid() && other.mem == old(mem) && other.start == old(start) && other.end == old(end)
                && other.flags == old(flags) && other.needsFlush == old(needsFlush) && other.needsDelete == old(needsDelete)
                && mem == null && Valid()
      ensures this != other && old(mem) != null ==> other.View() == old(View())
    {
      if this == other {
        return;
      }
      other.Reset();
      other.mem, other.start, other.end := mem, start, end;
      other.flags, other.needsFlush, other.needsDelete := flags, needsFlush, needsDelete;
      mem, start, end, flags, needsFlush, needsDelete := null, 0, 0, RAW, false, false;
    }

    /** Takes everything up to the first `endTag`; the result points just past it, or is null without one. */
    method ParseText(buf: array<char>, p: nat, endTag: string, f: Flags, ghost n: nat) returns (q: Ptr)
      requires p <= n < buf.Length && buf[n] == NUL && NulFree(buf[p..n]) && endTag != [] && NulFree(endTag)
      modifies this
      ensures var found := Find(buf[p..n], endTag);
              && (found.None? ==> q == Null && unchanged(this))
              && (found.Some? ==>
                    && q == At(p + found.value + |endTag|) && q.index <= n
                    && Valid() && mem == buf && start == p && end == p + found.value
                    && flags == f && needsFlush && !needsDelete
                    && View() == Value(buf[p..n][..found.value], f))
    {
      var at := p;
      ghost var s := buf[p..n];
      while buf[at] != NUL
        invariant p <= at <= n
        invariant forall i :: 0 <= i < at - p ==> !StartsWith(s[i..], endTag)
        invariant unchanged(this)
        decreases n - at
      {
        assert s[at - p..] == buf[at..n];
        if buf[at] == endTag[0] {
          var same := StartsWithAt(buf, at, endTag, n);
          if same {
            FindIs(s, endTag, at - p);
            TakeOf(buf, p, at, n);
            Set(buf, p, at, f);
            return At(at + |endTag|);
          }
        } else {
          assert s[at - p..][0] == buf[at];
        }
        at := at + 1;
      }
      assert at == n;
      FindNone(s, endTag);
      return Null;
    }

    method ParseName(buf: array<char>, p: nat, ghost n: nat) returns (q: Ptr)
      requires p <= n < buf.Length && buf[n] == NUL && NulFree(buf[p..n])
      modifies this
      ensures var k := NameLength(buf[p..n]);
              && (k == 0 ==> q == Null && unchanged(this))
              && (k > 0 ==>
                    && q == At(p + k) && p + k <= n
                    && Valid() && mem == buf && start == p && end == p + k
                    && flags == RAW && needsFlush && !needsDelete
                    && View() == buf[p..n][..k])
    {
      ghost var s := buf[p..n];
      if buf[p] == NUL {
        assert p == n;
        return Null;
      }
      hide NameLength;
      assert s[0] == buf[p];
      if !IsNameStartChar(buf[p]) {
        return Null;
      }
      var at := p + 1;
      while buf[at] != NUL && IsNameChar(buf[at])
        invariant p < at <= n
        invariant forall i :: 0 <= i < at - p ==> IsNameChar(s[i])
        invariant unchanged(this)
        decreases n - at
      {
        assert s[at - p] == buf[at];
        at := at + 1;
      }
      assert at < n ==> s[at - p] == buf[at];
      NameLengthIs(s, at - p);
      TakeOf(buf, p, at, n);
      Set(buf, p, at, RAW);
      NameValue(buf[p..at]);
      return At(at);
    }

    /** Leading and trailing blanks dropped, inner runs turned into one space, in place. */
    method CollapseWhitespace()
      requires Valid() && mem != null && !needsFlush && !needsDelete
      modifies this`start, mem
      ensures Valid() && mem == old(mem) && old(start) <= start <= end == old(end)
      ensures Cut(mem[start..end]) == Collapse(old(Cut(mem[start..end])))
      ensures mem[..old(start)] == old(mem[..start]) && mem[end..] == old(mem[end..])
    {
      hide Collapse;
      hide SkipWS;
      hide CollapseTail;
      hide Cut;
      ghost var text := Cut(mem[start..end]);
      ghost var z := start + |text|;
      assert mem[z] == NUL && mem[start..z] == text;
      var first := SkipWhiteSpace(mem, start, z);
      CollapseTailIsCollapse(text);
      CollapseNulFree(text);
      CollapseRest(mem, first, Collapse(text), z, end);
      start := first;
    }

    /** The string. The first call decodes it in place; no call changes anything outside [start, end]. */
    method GetStr() returns (s: nat)
      requires Valid() && mem != null
      modifies this`start, this`flags, this`needsFlush, mem
      ensures Valid() && mem == old(mem) && old(start) <= start <= end == old(end) && s == start
      ensures !needsFlush && needsDelete == old(needsDelete)
      ensures View() == old(View()) == Cut(mem[s..])
      ensures old(needsFlush) ==> Cut(mem[s..]) == Value(old(mem[start..end]), old(flags))
      ensures mem[..old(start)] == old(mem[..start]) && mem[end + 1..] == old(mem[end + 1..])
      ensures !old(needsFlush) ==> unchanged(this) && mem[..] == old(mem[..])
      ensures old(needsFlush) ==> flags == RAW && (!old(flags).collapse ==> start == old(start))
    {
      if needsFlush {
        Flush();
      }
      CutAtEnd(mem, start, end);
      return start;
    }

    /** The part of GetStr that runs once. */
    method Flush()
      requires Valid() && mem != null && needsFlush
      modifies this`start, this`flags, this`needsFlush, mem
      ensures Valid() && mem == old(mem) && old(start) <= start <= end == old(end)
      ensures !needsFlush && needsDelete == old(needsDelete)
      ensures Cut(mem[start..end]) == Value(old(mem[start..end]), old(flags))
      ensures mem[..old(start)] == old(mem[..start]) && mem[end + 1..] == old(mem[end + 1..])
      ensures flags == RAW && (!old(flags).collapse ==> start == old(start))
    {
      hide Value, Collapse, Cut, DecodeFrom;
      ghost var raw := mem[start..end];
      ValueIs(raw, flags);
      mem[end] := NUL;
      needsFlush := false;
      assert mem[start..end] == raw;
      if flags.entities || flags.newlines || flags.collapse || needsDelete {
        ghost var tail := mem[end..];
        Decode(mem, start, end, flags);
        assert mem[end + 1..] == mem[end..][1..] == tail[1..] == old(mem[end + 1..]);
      } else {
        DecodeRaw(raw, 0, []);
      }
      if flags.collapse {
        ghost var tail := mem[end..];
        CollapseWhitespace();
        assert mem[end + 1..] == mem[end..][1..] == tail[1..] == old(mem[end + 1..]);
      }
      flags := RAW;
    }
  }

  // ---------- the two pointers of an in-place pass ----------

  /** The state of an in-place pass: `out` has been written from `start` up to the write pointer q, and `t` is what
      the read pointer p has not read yet of the text that ends at z. */
  ghost predicate Pass(mem: array<char>, start: nat, q: nat, p: nat, z: nat, out: string, t: string)
    reads mem
  {
    start <= q <= p <= z < mem.Length && mem[z] == NUL && mem[start..q] == out && mem[p..z] == t
  }

  lemma PassStarts(mem: array<char>, start: nat, z: nat)
    requires start <= z < mem.Length && mem[z] == NUL
    ensures Pass(mem, start, start, start, z, [], mem[start..z])
  {
  }

  /** Nothing outside mem[start..z] has changed. */
  twostate predicate Outside(mem: array<char>, start: nat, z: nat)
    requires start <= z <= mem.Length
    reads mem
  {
    mem[..start] == old(mem[..start]) && mem[z..] == old(mem[z..])
  }

  /** `*q = c; ++q` behind the read pointer. */
  method Put(mem: array<char>, q: nat, c: char,
             ghost start: nat, ghost p: nat, ghost z: nat, ghost out: string, ghost t: string)
    requires Pass(mem, start, q, p, z, out, t) && q < p
    modifies mem
    ensures Pass(mem, start, q + 1, p, z, out + [c], t) && Outside(mem, start, z)
  {
    mem[q] := c;
  }

  /** `*q = *p; ++p; ++q`. */
  method Copy(mem: array<char>, q: nat, p: nat, ghost start: nat, ghost z: nat, ghost out: string, ghost t: string)
    requires Pass(mem, start, q, p, z, out, t) && t != []
    modifies mem
    ensures Pass(mem, start, q + 1, p + 1, z, out + [t[0]], t[1..]) && Outside(mem, start, z)
  {
    assert t[0] == mem[p];
    mem[q] := mem[p];
    assert mem[p + 1..z] == t[1..];
  }

  /** `*q = 0` at the end. */
  method Terminate(mem: array<char>, q: nat, ghost start: nat, ghost p: nat, ghost z: nat, ghost end: nat, ghost out: string, ghost t: string)
    requires Pass(mem, start, q, p, z, out, t) && z <= end < mem.Length && mem[end] == NUL && NulFree(out)
    modifies mem
    ensures Cut(mem[start..end]) == out && Outside(mem, start, end)
  {
    mem[q] := NUL;
    assert mem[start..end][..q - start] == out;
    CutIsUnique(mem[start..end], q - start);
  }

  /** `p = SkipWhiteSpace(p)`. */
  method SkipBlanks(mem: array<char>, p: nat, ghost start: nat, ghost q: nat, ghost z: nat, ghost out: string, ghost t: string)
    returns (r: nat)
    requires Pass(mem, start, q, p, z, out, t)
    ensures p <= r && Pass(mem, start, q, r, z, out, SkipWS(t))
    ensures t != [] && IsWhiteSpace(t[0]) ==> q <= p < r
  {
    r := SkipWhiteSpace(mem, p, z);
    if r == p && t != [] {
      assert SkipWS(t) == t;
    }
  }

  /** `*p`, which is NUL exactly when nothing is left to read. */
  method Peek(mem: array<char>, p: nat, ghost start: nat, ghost q: nat, ghost z: nat, ghost out: string, ghost t: string)
    returns (c: char)
    requires Pass(mem, start, q, p, z, out, t) && NulFree(t)
    ensures c == NUL <==> t == []
    ensures t != [] ==> c == t[0]
  {
    c := mem[p];
    assert t != [] ==> t[0] == mem[p];
  }

  lemma CollapseTailStep(out: string, t: string, goal: string)
    requires t != [] && out + CollapseTail(t) == goal
    ensures !IsWhiteSpace(t[0]) ==> (out + [t[0]]) + CollapseTail(t[1..]) == goal
    ensures IsWhiteSpace(t[0]) && SkipWS(t) == [] ==> out + CollapseTail([]) == goal
    ensures IsWhiteSpace(t[0]) && SkipWS(t) != [] ==>
              ((out + [' ']) + [SkipWS(t)[0]]) + CollapseTail(SkipWS(t)[1..]) == goal
  {
    var u := SkipWS(t);
    hide SkipWS;
    if !IsWhiteSpace(t[0]) {
      Associates(out, [t[0]], CollapseTail(t[1..]));
    } else if u != [] {
      assert (out + [' ']) + [u[0]] == out + [' ', u[0]];
      Associates(out, [' ', u[0]], CollapseTail(u[1..]));
    }
  }

  lemma SkipNulFree(t: string)
    requires NulFree(t)
    ensures NulFree(SkipWS(t)) && (SkipWS(t) != [] ==> NulFree(SkipWS(t)[1..])) && (t != [] ==> NulFree(t[1..]))
  {
    hide SkipWS;
  }

  /** The copying loop of CollapseWhitespace, over the C string mem[start..z]. */
  method CollapseRest(mem: array<char>, start: nat, ghost goal: string, ghost z: nat, ghost end: nat)
    requires start <= z <= end < mem.Length && mem[z] == NUL && mem[end] == NUL
    requires NulFree(mem[start..z]) && CollapseTail(mem[start..z]) == goal && NulFree(goal)
    modifies mem
    ensures Cut(mem[start..end]) == goal && Outside(mem, start, end)
  {
    hide CollapseTail;
    hide Cut;
    hide Pass;
    hide NulFree;
    var p, q := start, start;
    ghost var out, t := [], mem[start..z];
    PassStarts(mem, start, z);
    assert out + CollapseTail(t) == goal;
    var c := Peek(mem, p, start, q, z, out, t);
    while c != NUL
      invariant Pass(mem, start, q, p, z, out, t) && NulFree(t)
      invariant c == NUL <==> t == []
      invariant out + CollapseTail(t) == goal
      invariant Outside(mem, start, z)
      decreases |t|
    {
      p, q, c, out, t := CollapseOne(mem, p, q, start, z, out, t, goal);
    }
    CollapseTailOfNothing([]);
    assert out == goal by {
      assert out + [] == out;
    }
    assert mem[z..][end - z..] == mem[end..] && old(mem[z..])[end - z..] == old(mem[end..]);
    Terminate(mem, q, start, p, z, end, out, t);
  }

  /** One iteration: a run of blanks becomes one space unless the text ends there, then a character is copied. */
  method CollapseOne(mem: array<char>, p0: nat, q0: nat, ghost start: nat, ghost z: nat, ghost out0: string, ghost t0: string, ghost goal: string)
    returns (p: nat, q: nat, c: char, ghost out: string, ghost t: string)
    requires Pass(mem, start, q0, p0, z, out0, t0) && NulFree(t0) && t0 != [] && out0 + CollapseTail(t0) == goal
    modifies mem
    ensures Pass(mem, start, q, p, z, out, t) && NulFree(t) && |t| < |t0| && out + CollapseTail(t) == goal
    ensures c == NUL <==> t == []
    ensures Outside(mem, start, z)
  {
    hide CollapseTail;
    hide SkipWS;
    hide IsWhiteSpace;
    hide Pass;
    hide NulFree;
    p, q, out, t := p0, q0, out0, t0;
    c := Peek(mem, p, start, q, z, out, t);
    CollapseTailStep(out, t, goal);
    SkipNulFree(t);
    if IsWhiteSpace(c) {
      p := SkipBlanks(mem, p, start, q, z, out, t);
      SkipShorter(t);
      t := SkipWS(t);
      c := Peek(mem, p, start, q, z, out, t);
      if c == NUL {
        return;  // nothing is written, which trims the trailing blank
      }
      Put(mem, q, ' ', start, p, z, out, t);
      q, out := q + 1, out + [' '];
    }
    Copy(mem, q, p, start, z, out, t);
    out, t, q, p := out + [t[0]], t[1..], q + 1, p + 1;
    c := Peek(mem, p, start, q, z, out, t);
  }

  lemma SkipShorter(t: string)
    requires t != [] && IsWhiteSpace(t[0])
    ensures |SkipWS(t)| < |t|
  {
  }

  lemma ValueIs(raw: string, f: Flags)
    ensures var d := Cut(DecodeFrom(raw, f, 0, []));
            Value(raw, f) == if f.collapse then Collapse(d) else d
  {
  }

  lemma CutAtEnd(mem: array<char>, start: nat, end: nat)
    requires start <= end < mem.Length && mem[end] == NUL
    ensures Cut(mem[start..]) == Cut(mem[start..end])
  {
    var k := |Cut(mem[start..end])|;
    assert mem[start..][..k] == mem[start..end][..k];
    assert mem[start..][k] == NUL;
    CutIsUnique(mem[start..], k);
  }

  // ---------- the decoding pass ----------

  /** The state of the decoding pass over mem[start..end], whose undecoded text is `raw`: `out` has been written up to
      the write pointer q, and from q on the buffer still holds `raw`. The read pointer p is never behind q. */
  ghost predicate Decoding(mem: array<char>, start: nat, q: nat, p: nat, end: nat, raw: string, out: string)
    reads mem
  {
    && start <= q <= p <= end < mem.Length && mem[end] == NUL && |raw| == end - start
    && mem[start..q] == out && mem[q..end] == raw[q - start..]
  }

  lemma DecodingReads(mem: array<char>, start: nat, q: nat, p: nat, end: nat, raw: string, out: string)
    requires Decoding(mem, start, q, p, end, raw, out)
    ensures |out| == q - start && raw[p - start..] == mem[p..end]
    ensures q < end ==> raw[|out|] == mem[q]
  {
    DropDrop(raw, q - start, p - q);
    DropDrop(mem[..end], q, p - q);
    assert mem[..end][q..] == mem[q..end] && mem[..end][p..] == mem[p..end];
    if q < end {
      assert raw[q - start..][0] == raw[q - start] && mem[q..end][0] == mem[q];
    }
  }

  lemma DropDrop(s: string, i: nat, j: nat)
    requires i + j <= |s|
    ensures s[i..][j..] == s[i + j..]
  {
  }

  lemma DecodingAdvances(mem: array<char>, start: nat, q: nat, p: nat, n: nat, end: nat, raw: string, out: string)
    requires Decoding(mem, start, q, p, end, raw, out) && p + n <= end
    ensures Decoding(mem, start, q, p + n, end, raw, out)
  {
  }

  /** `*q = c; ++q` while the read pointer is ahead. */
  method Emit(mem: array<char>, q: nat, c: char,
              ghost start: nat, ghost p: nat, ghost end: nat, ghost raw: string, ghost out: string)
    requires Decoding(mem, start, q, p, end, raw, out) && q < p
    modifies mem
    ensures Decoding(mem, start, q + 1, p, end, raw, out + [c]) && Outside(mem, start, end)
  {
    mem[q] := c;
    assert mem[q + 1..end] == raw[q - start..][1..] == raw[q + 1 - start..];
  }

  /** memcpy(q, buf, len) of a character reference. */
  method EmitAll(mem: array<char>, q: nat, buf: array<char>, len: nat,
                 ghost start: nat, ghost p: nat, ghost end: nat, ghost raw: string, ghost out: string)
    requires Decoding(mem, start, q, p, end, raw, out) && q + len <= p && len <= buf.Length && buf != mem
    modifies mem
    ensures Decoding(mem, start, q + len, p, end, raw, out + buf[..len]) && Outside(mem, start, end)
  {
    assert out + buf[..0] == out;
    for k := 0 to len
      invariant Decoding(mem, start, q + k, p, end, raw, out + buf[..k])
      invariant Outside(mem, start, end)
    {
      hide Decoding;
      Emit(mem, q + k, buf[k], start, p, end, raw, out + buf[..k]);
      assert out + buf[..k] + [buf[k]] == out + buf[..k + 1];
    }
  }

  /** The body of the decoding loop of GetStr. */
  method DecodeOne(mem: array<char>, p: nat, q: nat, f: Flags, buf: array<char>,
                   ghost start: nat, ghost end: nat, ghost raw: string, ghost out: string)
    returns (p': nat, q': nat)
    requires Decoding(mem, start, q, p, end, raw, out) && p < end && NulFree(raw)
    requires buf != mem && buf.Length == 10
    modifies mem, buf
    ensures |out| < |raw| && raw[p - start..] != []
    ensures var r := DecodeStep(raw[p - start..], f, raw[|out|]);
            p' == p + r.1 && q' == q + |r.0| && Decoding(mem, start, q', p', end, raw, out + r.0)
    ensures Outside(mem, start, end)
  {
    hide Decoding;
    hide GetCharacterRef;
    hide EntityAt;
    DecodingReads(mem, start, q, p, end, raw, out);
    DecodingFacts(mem, start, q, p, end, raw, out);
    var c := mem[p];
    if f.newlines && (c == CR || c == LF) {
      p' := if mem[p + 1] == (if c == CR then LF else CR) then p + 2 else p + 1;
      DecodingAdvances(mem, start, q, p, p' - p, end, raw, out);
      Emit(mem, q, LF, start, p', end, raw, out);
      q' := q + 1;
    } else if f.entities && c == '&' {
      if mem[p + 1] == '#' {
        var adjusted, len := GetCharacterReference(mem, p, buf, end);
        if adjusted == Null {
          p' := p + 1;
          DecodingAdvances(mem, start, q, p, 1, end, raw, out);
          Emit(mem, q, c, start, p', end, raw, out);
          q' := q + 1;
        } else {
          p' := adjusted.index;
          DecodingAdvances(mem, start, q, p, p' - p, end, raw, out);
          EmitAll(mem, q, buf, len, start, p', end, raw, out);
          q' := q + len;
        }
      } else {
        var entity := FindEntity(mem, p, end);
        match entity {
          case Entity(value, consumed) =>
            p' := p + consumed;
            DecodingAdvances(mem, start, q, p, consumed, end, raw, out);
            Emit(mem, q, value, start, p', end, raw, out);
            q' := q + 1;
          case NoEntity =>
            p', q' := p + 1, q + 1;  // nothing is written
            DecodingSkips(mem, start, q, p, end, raw, out);
        }
      }
    } else {
      p' := p + 1;
      DecodingAdvances(mem, start, q, p, 1, end, raw, out);
      Emit(mem, q, c, start, p', end, raw, out);
      q' := q + 1;
    }
  }

  lemma DecodingFacts(mem: array<char>, start: nat, q: nat, p: nat, end: nat, raw: string, out: string)
    requires Decoding(mem, start, q, p, end, raw, out) && p < end && NulFree(raw)
    ensures start <= q <= p < end < mem.Length && mem[end] == NUL && |raw| == end - start
    ensures NulFree(mem[p..end]) && mem[p..end][0] == mem[p] && (p + 1 < end ==> mem[p..end][1] == mem[p + 1])
    ensures p + 1 < end || mem[p + 1] == NUL
  {
    DecodingReads(mem, start, q, p, end, raw, out);
  }

  /** Leaving the byte under the write pointer is the same as writing it back. */
  lemma DecodingSkips(mem: array<char>, start: nat, q: nat, p: nat, end: nat, raw: string, out: string)
    requires Decoding(mem, start, q, p, end, raw, out) && p < end
    ensures |out| < |raw| && Decoding(mem, start, q + 1, p + 1, end, raw, out + [raw[|out|]])
  {
    DecodingReads(mem, start, q, p, end, raw, out);
    assert mem[q + 1..end] == mem[q..end][1..] == raw[q - start..][1..];
  }

  lemma DecodingStarts(mem: array<char>, start: nat, end: nat)
    requires start <= end < mem.Length && mem[end] == NUL
    ensures Decoding(mem, start, start, start, end, mem[start..end], [])
  {
  }

  /** The decoding loop of GetStr over the text mem[start..end], which is followed by its NUL. */
  method Decode(mem: array<char>, start: nat, end: nat, f: Flags)
    requires start <= end < mem.Length && mem[end] == NUL && NulFree(mem[start..end])
    modifies mem
    ensures Cut(mem[start..end]) == Cut(DecodeFrom(old(mem[start..end]), f, 0, []))
    ensures mem[end] == NUL && Outside(mem, start, end)
  {
    hide Decoding;
    hide DecodeStep;
    hide DecodeFrom;
    hide Cut;
    var buf := new char[10];
    var p, q := start, start;
    ghost var raw, out := mem[start..end], [];
    DecodingStarts(mem, start, end);
    while p < end
      invariant start <= p <= end && |raw| == end - start && |out| <= p - start
      invariant Decoding(mem, start, q, p, end, raw, out)
      invariant DecodeFrom(raw, f, p - start, out) == DecodeFrom(raw, f, 0, [])
      invariant Outside(mem, start, end)
    {
      DecodeUnfold(raw, f, p - start, out);
      ghost var r := DecodeStep(raw[p - start..], f, raw[|out|]);
      p, q := DecodeOne(mem, p, q, f, buf, start, end, raw, out);
      out := out + r.0;
    }
    DecodeEnds(raw, f, out);
    Close(mem, q, start, p, end, raw, out);
  }

  lemma DecodeEnds(raw: string, f: Flags, out: string)
    requires |out| <= |raw|
    ensures DecodeFrom(raw, f, |raw|, out) == out
  {
  }

  /** `*q = 0` after the decoding loop. */
  method Close(mem: array<char>, q: nat, ghost start: nat, ghost p: nat, ghost end: nat, ghost raw: string, ghost out: string)
    requires Decoding(mem, start, q, p, end, raw, out)
    modifies mem
    ensures Cut(mem[start..end]) == Cut(out) && mem[end] == NUL && Outside(mem, start, end)
  {
    mem[q] := NUL;
    CutPrefix(mem[start..end], out);
  }

  lemma CutPrefix(s: string, out: string)
    requires out <= s && (|out| < |s| ==> s[|out|] == NUL)
    ensures Cut(s) == Cut(out)
  {
    var c := Cut(out);
    assert s[..|c|] == c;
    assert |c| < |out| ==> s[|c|] == out[|c|];
    CutIsUnique(s, |c|);
  }
}
