/** Character classes, numeric character references and UTF-8 output of tinyxml2's XMLUtil.
    A C `char` is modelled by a Dafny `char`; every code from 128 up is treated as a byte of a UTF-8
    sequence, which is how the code itself treats it. A C string is the text before its first NUL. */
module XmlUtil {
  import opened Texts

  datatype Option<+T> = None | Some(value: T)

  const NUL: char := '\0'
  const LF: char := '\n'
  const CR: char := '\r'

  predicate NulFree(s: string) {
    forall i :: 0 <= i < |s| ==> s[i] != NUL
  }

  /** The C string that starts where `s` starts: everything before the first NUL. */
  function Cut(s: string): (r: string)
    ensures r <= s && NulFree(r)
    ensures |r| < |s| ==> s[|r|] == NUL
  {
    Until(s, NUL)
  }

  lemma CutIsUnique(s: string, k: nat)
    requires k <= |s| && NulFree(s[..k]) && (k < |s| ==> s[k] == NUL)
    ensures Cut(s) == s[..k]
  {
    assert forall i :: 0 <= i < k ==> s[..k][i] == s[i];
    UntilIsUnique(s, NUL, k);
  }

  // ---------- character classes ----------

  /** `isspace` of the C locale, and never true of a UTF-8 byte. */
  predicate IsWhiteSpace(c: char) {
    c == ' ' || '\t' <= c <= '\r'
  }

  predicate IsNameStartChar(c: char) {
    c as int >= 128 || 'a' <= c <= 'z' || 'A' <= c <= 'Z' || c == ':' || c == '_'
  }

  predicate IsNameChar(c: char) {
    IsNameStartChar(c) || '0' <= c <= '9' || c == '.' || c == '-'
  }

  /** The blanks of the C locale, the letters and the digits, one by one. */
  const BLANKS: string := [' ', '\t', '\n', '\U{0B}', '\U{0C}', '\r']
  const LOWER: string := "abcdefghijklmnopqrstuvwxyz"
  const UPPER: string := "ABCDEFGHIJKLMNOPQRSTUVWXYZ"
  const DIGITS: string := "0123456789"

  predicate OnlyBlanks(w: string) {
    forall i :: 0 <= i < |w| ==> w[i] in BLANKS
  }

  lemma BlankIs(c: char)
    ensures IsWhiteSpace(c) <==> c in BLANKS
    ensures IsWhiteSpace(c) <==> c as int in {9, 10, 11, 12, 13, 32}
  {
    assert BLANKS[0] == ' ' && BLANKS[1] == '\t' && BLANKS[2] == '\n' && BLANKS[3] == '\U{0B}' && BLANKS[4] == '\U{0C}' && BLANKS[5] == '\r';
    assert BLANKS[3] as int == 11 && BLANKS[4] as int == 12;
  }

  lemma LetterIs(c: char)
    ensures c in LOWER <==> 'a' <= c <= 'z'
    ensures c in UPPER <==> 'A' <= c <= 'Z'
  {
    assert forall k :: 0 <= k < 26 ==> LOWER[k] as int == 97 + k;
    assert forall k :: 0 <= k < 26 ==> UPPER[k] as int == 65 + k;
    if 'a' <= c <= 'z' {
      assert LOWER[c as int - 97] == c;
    }
    if 'A' <= c <= 'Z' {
      assert UPPER[c as int - 65] == c;
    }
  }

  lemma DigitIs(c: char)
    ensures c in DIGITS <==> '0' <= c <= '9'
  {
    assert forall k :: 0 <= k < 10 ==> DIGITS[k] as int == 48 + k;
    if '0' <= c <= '9' {
      assert DIGITS[c as int - 48] == c;
    }
  }

  /** The characters of names. */
  lemma NameCharIs(c: char)
    ensures IsNameStartChar(c) <==> c in LOWER || c in UPPER || c == ':' || c == '_' || c as int >= 128
    ensures IsNameChar(c) <==> c in LOWER || c in UPPER || c in DIGITS || c in ":_.-" || c as int >= 128
  {
    LetterIs(c);
    DigitIs(c);
    assert ":_.-" == [':', '_', '.', '-'];
  }

  /** The suffix of `s` that SkipWhiteSpace stops at. */
  function SkipWS(s: string): (r: string)
    ensures |r| <= |s| && r == s[|s| - |r|..]
    ensures r == [] || !IsWhiteSpace(r[0])
    ensures forall i :: 0 <= i < |s| - |r| ==> IsWhiteSpace(s[i])
  {
    if s == [] || !IsWhiteSpace(s[0]) then s else SkipWS(s[1..])
  }

  lemma {:induction false} SkipWSIsUnique(s: string, k: nat)
    requires k <= |s| && (forall i :: 0 <= i < k ==> IsWhiteSpace(s[i])) && (k < |s| ==> !IsWhiteSpace(s[k]))
    ensures SkipWS(s) == s[k..]
  {
    if k > 0 {
      SkipWSIsUnique(s[1..], k - 1);
    }
  }

  // ---------- numeric character references ----------

  const TWO32: int := 0x1_0000_0000
  const TWO64: int := 0x1_0000_0000_0000_0000

  lemma WordSizes()
    ensures TWO32 == 4294967296 && TWO64 == TWO32 * TWO32
  {
  }

  function Digit(c: char, hex: bool): (r: Option<int>)
    ensures r.Some? ==> 0 <= r.value < 16
    ensures r.Some? && !hex ==> r.value < 10
  {
    if '0' <= c <= '9' then Some(c as int - '0' as int)
    else if hex && 'a' <= c <= 'f' then Some(c as int - 'a' as int + 10)
    else if hex && 'A' <= c <= 'F' then Some(c as int - 'A' as int + 10)
    else None
  }

  function TimesBase(x: int, hex: bool): int {
    if hex then x * 16 else x * 10
  }

  /** What the scan from `s[q]` leftwards to the nearest `stop` accumulates: `mult` and the scaled digit
      are 32-bit unsigned, the sum is 64-bit unsigned. None when a character on the way is no digit. */
  function ScanLeft(s: string, q: nat, stop: char, hex: bool, mult: int, ucs: int): (r: Option<int>)
    requires q < |s| && exists i :: 0 <= i <= q && s[i] == stop
    requires 0 <= ucs < TWO64
    ensures r.Some? ==> 0 <= r.value < TWO64
  {
    if s[q] == stop then Some(ucs)
    else match Digit(s[q], hex)
      case None => None
      case Some(d) =>
        ScanLeft(s, q - 1, stop, hex, TimesBase(mult, hex) % TWO32, (ucs + mult * d % TWO32) % TWO64)
  }

  /** The digits of a reference, one by one. */
  lemma DigitsAre(i: nat)
    ensures i < 10 ==> Digit(DIGITS[i], false) == Some(i)
    ensures i < 16 ==> Digit("0123456789abcdef"[i], true) == Digit("0123456789ABCDEF"[i], true) == Some(i)
  {
    var l, u := "0123456789abcdef", "0123456789ABCDEF";
    assert i < 10 ==> DIGITS[i] as int == 48 + i;
    assert i < 16 ==> l[i] as int == (if i < 10 then 48 + i else 87 + i) && u[i] as int == if i < 10 then 48 + i else 55 + i;
  }

  /** And no other character is one. */
  lemma NoOtherDigit(c: char, hex: bool)
    ensures Digit(c, hex).Some? <==> c in DIGITS || (hex && c in "abcdefABCDEF")
  {
    DigitIs(c);
    var l := "abcdefABCDEF";
    assert forall k :: 0 <= k < 12 ==> l[k] as int == if k < 6 then 97 + k else 59 + k;
    if 'a' <= c <= 'f' {
      assert l[c as int - 97] == c;
    }
    if 'A' <= c <= 'F' {
      assert l[c as int - 59] == c;
    }
  }

  /** Index of the first `c` at or after `from`, or |s|. */
  function IndexOf(s: string, c: char, from: nat): (k: nat)
    requires from <= |s|
    ensures from <= k <= |s|
    ensures k < |s| ==> s[k] == c
    ensures forall i :: from <= i < k ==> s[i] != c
    decreases |s| - from
  {
    if from == |s| || s[from] == c then from else IndexOf(s, c, from + 1)
  }

  /** The UTF-8 bytes written for a code, by the bit layout of section 3 of RFC 3629; none from 0x200000 up. */
  function Utf8(v: int): (r: string)
    requires 0 <= v
    ensures |r| <= 4
  {
    if v < 0x80 then [v as char]
    else if v < 0x800 then [(0xC0 + v / 64) as char, Trail(v)]
    else if v < 0x10000 then [(0xE0 + v / 64 / 64) as char, Trail(v / 64), Trail(v)]
    else if v < 0x200000 then [(0xF0 + v / 64 / 64 / 64) as char, Trail(v / 64 / 64), Trail(v / 64), Trail(v)]
    else []
  }

  function Trail(v: int): char
    requires 0 <= v
  {
    (0x80 + v % 64) as char
  }

  datatype CharRef = NoRef | Ref(out: string, consumed: nat)

  /** GetCharacterRef on the C string `s`, which starts with "&#": the bytes it produces and how far it
      moves the read pointer. */
  function GetCharacterRef(s: string): (r: CharRef)
    requires |s| >= 2 && s[0] == '&' && s[1] == '#'
    ensures r.Ref? ==> 1 <= r.consumed <= |s| && |r.out| <= r.consumed && |r.out| <= 4
  {
    if |s| == 2 then Ref([], 1)
    else if s[2] == 'x' then
      if |s| == 3 then NoRef
      else
        var k := IndexOf(s, ';', 3);
        if k == |s| then NoRef
        else
          assert s[2] == 'x';
          match ScanLeft(s, k - 1, 'x', true, 1, 0)
          case None => NoRef
          case Some(v) => ShortOutput(s, k, 'x', true, 2); Ref(Utf8(v), k + 1)
    else
      var k := IndexOf(s, ';', 2);
      if k == |s| then NoRef
      else
        assert s[1] == '#';
        match ScanLeft(s, k - 1, '#', false, 1, 0)
        case None => NoRef
        case Some(v) => ShortOutput(s, k, '#', false, 1); Ref(Utf8(v), k + 1)
  }

  /** The output of a reference is never longer than the reference itself. */
  lemma ShortOutput(s: string, k: nat, stop: char, hex: bool, from: nat)
    requires 1 <= from < k < |s| && s[from] == stop
    requires ScanLeft(s, k - 1, stop, hex, 1, 0).Some?
    ensures |Utf8(ScanLeft(s, k - 1, stop, hex, 1, 0).value)| <= k + 1
  {
    if k <= 2 {
      assert s[k - 1] == stop;
    }
  }

  // ---------- what the reference scan computes ----------

  predicate AllDigits(digits: string, hex: bool) {
    forall i :: 0 <= i < |digits| ==> Digit(digits[i], hex).Some?
  }

  /** Value of a digit string read from left to right, the mathematical reading of section 4.1 of XML 1.0. */
  function Positional(digits: string, hex: bool): (v: int)
    requires AllDigits(digits, hex)
    ensures v >= 0
  {
    if digits == [] then 0
    else TimesBase(Positional(digits[..|digits| - 1], hex), hex) + Digit(digits[|digits| - 1], hex).value
  }

  /** One digit more: sixteen times, or ten times, what stands before it. */
  lemma PositionalStep(digits: string, d: nat)
    requires d < 10
    ensures AllDigits(digits, true) ==>
              && AllDigits(digits + [DIGITS[d]], true)
              && Positional(digits + [DIGITS[d]], true) == 16 * Positional(digits, true) + d
    ensures AllDigits(digits, false) ==>
              && AllDigits(digits + [DIGITS[d]], false)
              && Positional(digits + [DIGITS[d]], false) == 10 * Positional(digits, false) + d
  {
    DigitsAre(d);
    assert (digits + [DIGITS[d]])[..|digits|] == digits;
    assert "0123456789abcdef"[d] == DIGITS[d];
  }

  /** The sum the scan builds over the digits alone. */
  function Weigh(digits: string, hex: bool, mult: int, ucs: int): int
    requires AllDigits(digits, hex)
  {
    if digits == [] then ucs
    else
      var d := Digit(digits[|digits| - 1], hex).value;
      Weigh(digits[..|digits| - 1], hex, TimesBase(mult, hex) % TWO32, (ucs + mult * d % TWO32) % TWO64)
  }

  /** s[from..q+1] is the stretch the scan runs over: `stop` stands just before it and not inside it. */
  predicate Stretch(s: string, from: nat, q: int, stop: char) {
    1 <= from <= q + 1 <= |s| && s[from - 1] == stop && forall i :: from <= i <= q ==> s[i] != stop
  }

  lemma {:induction false} ScanIsWeigh(s: string, from: nat, q: nat, stop: char, hex: bool, mult: int, ucs: int)
    requires Stretch(s, from, q, stop) && 0 <= ucs < TWO64
    ensures ScanLeft(s, q, stop, hex, mult, ucs) ==
              if AllDigits(s[from..q + 1], hex) then Some(Weigh(s[from..q + 1], hex, mult, ucs)) else None
    decreases q
  {
    var ds := s[from..q + 1];
    if q + 1 == from {
      assert ds == [];
    } else {
      assert s[from - 1] == stop && ds[..|ds| - 1] == s[from..q] && ds[|ds| - 1] == s[q];
      assert ds == s[from..q] + [s[q]];
      if Digit(s[q], hex).Some? {
        var d := Digit(s[q], hex).value;
        ScanIsWeigh(s, from, q - 1, stop, hex, TimesBase(mult, hex) % TWO32, (ucs + mult * d % TWO32) % TWO64);
      }
    }
  }

  predicate Congruent(a: int, b: int) {
    (a - b) % TWO32 == 0
  }

  lemma CongruentTimes(a: int, b: int, p: int)
    requires Congruent(a, b)
    ensures Congruent(a * p, b * p)
  {
    var t := (a - b) / TWO32;
    assert a * p - b * p == (a - b) * p == TWO32 * (t * p) by {
      assert a - b == TWO32 * t;
    }
    MultipleOf32(t * p);
  }

  lemma MultipleOf32(t: int)
    ensures (TWO32 * t) % TWO32 == 0
  {
  }

  lemma CongruentPlus(a: int, b: int, c: int, d: int)
    requires Congruent(a, b) && Congruent(c, d)
    ensures Congruent(a + c, b + d)
  {
  }

  lemma CongruentTrans(a: int, b: int, c: int)
    requires Congruent(a, b) && Congruent(b, c)
    ensures Congruent(a, c)
  {
  }

  lemma CongruentMod(a: int)
    ensures Congruent(a % TWO32, a) && Congruent(a % TWO64, a)
  {
  }

  /** One digit of the scan, taken modulo 2^32. */
  lemma ScanStep(mult: int, hex: bool, ucs: int, d: int, p: int, v: int)
    requires Congruent(v, (ucs + mult * d % TWO32) % TWO64 + (TimesBase(mult, hex) % TWO32) * p)
    ensures Congruent(v, ucs + mult * (TimesBase(p, hex) + d))
  {
    var md, mb := mult * d, TimesBase(mult, hex);
    var w := ucs + md % TWO32;
    CongruentMod(md);
    CongruentMod(mb);
    CongruentMod(w);
    CongruentTimes(mb % TWO32, mb, p);
    CongruentPlus(ucs, ucs, md % TWO32, md);
    CongruentTrans(w % TWO64, w, ucs + md);
    CongruentPlus(w % TWO64, ucs + md, (mb % TWO32) * p, mb * p);
    CongruentTrans(v, w % TWO64 + (mb % TWO32) * p, ucs + md + mb * p);
    Regroup(mult, hex, p, d);
  }

  lemma Regroup(mult: int, hex: bool, value: int, d: int)
    ensures mult * (TimesBase(value, hex) + d) == TimesBase(mult, hex) * value + mult * d
  {
  }

  /** The scan agrees with the positional value modulo 2^32, for references of every length. */
  lemma {:induction false} WeighIsPositional(ds: string, hex: bool, mult: int, ucs: int)
    requires AllDigits(ds, hex)
    ensures Congruent(Weigh(ds, hex, mult, ucs), ucs + mult * Positional(ds, hex))
  {
    if ds != [] {
      var init, d := ds[..|ds| - 1], Digit(ds[|ds| - 1], hex).value;
      var mult', ucs' := TimesBase(mult, hex) % TWO32, (ucs + mult * d % TWO32) % TWO64;
      WeighIsPositional(init, hex, mult', ucs');
      ScanStep(mult, hex, ucs, d, Positional(init, hex), Weigh(init, hex, mult', ucs'));
    }
  }

  /** `n` more digits can be scaled from `mult` on without a 32-bit step wrapping. */
  predicate NoWrap(mult: int, hex: bool, n: nat)
    decreases n
  {
    mult <= TWO32 && (n > 0 ==> NoWrap(TimesBase(mult, hex), hex, n - 1))
  }

  function Affine(ucs: int, mult: int, value: int): int {
    ucs + mult * value
  }

  /** As long as no 32-bit step wraps, the scan is the positional value itself. */
  lemma {:induction false} WeighIsExact(ds: string, hex: bool, mult: int, ucs: int)
    requires AllDigits(ds, hex) && 0 <= ucs < mult && NoWrap(mult, hex, |ds|)
    ensures Weigh(ds, hex, mult, ucs) == Affine(ucs, mult, Positional(ds, hex))
  {
    if ds != [] {
      var init, d := ds[..|ds| - 1], Digit(ds[|ds| - 1], hex).value;
      hide Affine;
      hide TimesBase;
      hide Digit;
      hide Weigh;
      hide Positional;
      hide NoWrap;
      var mult', ucs' := TimesBase(mult, hex), Affine(ucs, mult, d);
      WeighStep(ds, init, hex, mult, ucs, d);
      if init == [] {
        EmptyWeighs(init, hex, mult', ucs');
      } else {
        WeighIsExact(init, hex, mult', ucs');
      }
      WeighTotal(ds, init, hex, mult, ucs, d);
    }
  }

  lemma EmptyWeighs(ds: string, hex: bool, mult: int, ucs: int)
    requires ds == []
    ensures Weigh(ds, hex, mult % TWO32, ucs) == Affine(ucs, mult, Positional(ds, hex))
  {
  }

  lemma WeighStep(ds: string, init: string, hex: bool, mult: int, ucs: int, d: int)
    requires ds != [] && AllDigits(ds, hex) && init == ds[..|ds| - 1] && d == Digit(ds[|ds| - 1], hex).value
    requires 0 <= ucs < mult && NoWrap(mult, hex, |ds|)
    ensures AllDigits(init, hex) && NoWrap(TimesBase(mult, hex), hex, |init|)
    ensures 0 <= Affine(ucs, mult, d) < TimesBase(mult, hex)
    ensures var mult' := if init == [] then TimesBase(mult, hex) % TWO32 else TimesBase(mult, hex);
            Weigh(ds, hex, mult, ucs) == Weigh(init, hex, mult', Affine(ucs, mult, d))
  {
    hide Weigh;
    hide TimesBase;
    hide Digit;
    hide NoWrap;
    hide Affine;
    DigitFits(mult, hex, ucs, d, |init|);
    WeighUnfold(ds, init, hex, mult, ucs, d);
  }

  lemma WeighUnfold(ds: string, init: string, hex: bool, mult: int, ucs: int, d: int)
    requires ds != [] && AllDigits(ds, hex) && init == ds[..|ds| - 1] && d == Digit(ds[|ds| - 1], hex).value
    requires 0 <= mult * d < TWO32 && 0 <= ucs && Affine(ucs, mult, d) < TWO64
    ensures AllDigits(init, hex)
    ensures Weigh(ds, hex, mult, ucs) == Weigh(init, hex, TimesBase(mult, hex) % TWO32, Affine(ucs, mult, d))
  {
    Small(mult * d, ucs);
    hide TimesBase;
    hide Digit;
  }

  lemma WeighTotal(ds: string, init: string, hex: bool, mult: int, ucs: int, d: int)
    requires ds != [] && init == ds[..|ds| - 1] && AllDigits(ds, hex) && d == Digit(ds[|ds| - 1], hex).value
    ensures Affine(ucs, mult, Positional(ds, hex)) == Affine(Affine(ucs, mult, d), TimesBase(mult, hex), Positional(init, hex))
  {
    Regroup(mult, hex, Positional(init, hex), d);
  }

  lemma Small(x: int, ucs: int)
    requires 0 <= x < TWO32 && 0 <= ucs && ucs + x < TWO64
    ensures (ucs + x % TWO32) % TWO64 == ucs + x
  {
  }

  lemma DigitFits(mult: int, hex: bool, ucs: int, d: int, n: nat)
    requires 0 <= ucs < mult && 0 <= d < (if hex then 16 else 10) && NoWrap(mult, hex, n + 1)
    ensures 0 <= mult * d < TWO32 && 0 <= Affine(ucs, mult, d) < TimesBase(mult, hex) <= TWO32 && NoWrap(TimesBase(mult, hex), hex, n)
    ensures n > 0 ==> TimesBase(mult, hex) < TWO32
  {
    TimesAtLeast(mult, 0, d);
    TimesAtLeast(mult, d, if hex then 15 else 9);
    if n > 0 {
      assert NoWrap(TimesBase(TimesBase(mult, hex), hex), hex, n - 1);
    }
  }

  lemma TimesAtLeast(a: int, x: int, y: int)
    requires 0 <= a && x <= y
    ensures a * x <= a * y
  {
  }

  /** Where the digits begin that the leftward scan from s[q] reads: behind the nearest `stop`. */
  function BehindStop(s: string, q: nat, stop: char): (j: nat)
    requires q < |s| && exists i :: 0 <= i <= q && s[i] == stop
    ensures Stretch(s, j, q, stop)
    ensures forall i :: 0 <= i <= q && s[i] == stop ==> i < j
  {
    if s[q] == stop then q + 1 else BehindStop(s, q - 1, stop)
  }

  /** The parts of a text that starts with "&#" and goes on: its base, the first ';' (or the end of the text), and what the scan takes
      for its digits. */
  function RefHex(s: string): bool
    requires |s| > 2
  {
    s[2] == 'x'
  }

  function RefEnd(s: string): nat
    requires |s| > 2
  {
    IndexOf(s, ';', if RefHex(s) then 3 else 2)
  }

  function RefDigits(s: string): string
    requires |s| > 2 && s[1] == '#' && RefEnd(s) < |s|
  {
    var k := RefEnd(s);
    assert s[1] == '#' && (RefHex(s) ==> s[2] == 'x');
    s[BehindStop(s, k - 1, if RefHex(s) then 'x' else '#')..k]
  }

  /** What GetCharacterRef makes of any text behind "&#". It is a reference exactly if a ';' follows and everything between the last
      'x' (or '#') before that and the ';' is a digit; what stands before is never looked at. The code written is the positional
      value modulo 2^32, and exactly that value as long as there are at most 8 hexadecimal or 9 decimal digits. A text that ends
      with "&#" loses the '&'. */
  lemma ReferenceMeaning(s: string)
    requires |s| >= 2 && s[0] == '&' && s[1] == '#'
    ensures |s| == 2 ==> GetCharacterRef(s) == Ref([], 1)
    ensures |s| > 2 ==> (GetCharacterRef(s).Ref? <==> RefEnd(s) < |s| && AllDigits(RefDigits(s), RefHex(s)))
    ensures |s| > 2 && GetCharacterRef(s).Ref? ==>
              exists v: nat :: Congruent(v, Positional(RefDigits(s), RefHex(s))) && GetCharacterRef(s) == Ref(Utf8(v), RefEnd(s) + 1)
    ensures |s| > 2 && GetCharacterRef(s).Ref? && |RefDigits(s)| <= (if RefHex(s) then 8 else 9) ==>
              GetCharacterRef(s) == Ref(Utf8(Positional(RefDigits(s), RefHex(s))), RefEnd(s) + 1)
  {
    hide Weigh;
    hide Positional;
    hide Utf8;
    hide Congruent;
    hide AllDigits;
    if |s| > 2 && RefEnd(s) < |s| {
      var hex, k := RefHex(s), RefEnd(s);
      var stop := if hex then 'x' else '#';
      assert s[1] == '#' && (hex ==> s[2] == 'x');
      var j := BehindStop(s, k - 1, stop);
      ScanIsWeigh(s, j, k - 1, stop, hex, 1, 0);
      if AllDigits(s[j..k], hex) {
        WeighMeaning(s[j..k], hex);
        assert ScanLeft(s, k - 1, stop, hex, 1, 0) == Some(Weigh(s[j..k], hex, 1, 0));
      }
    }
  }

  /** So a malformed reference is accepted when its tail is well formed, although section 4.1 of XML 1.0 allows digits only. */
  lemma MalformedExample()
    ensures GetCharacterRef("&#x1x2;") == Ref([2 as char], 7)
  {
    hide Utf8;
    var s := "&#x1x2;";
    assert s[2] == 'x' && s[4] == 'x';
    IndexOfIs(s, ';', 3, 6);
    assert Digit(s[5], true) == Some(2);
    assert ScanLeft(s, 4, 'x', true, 16, 2) == Some(2);
    assert ScanLeft(s, 5, 'x', true, 1, 0) == Some(2);
    assert Utf8(2) == [2 as char] by {
      SmallUtf8(2);
    }
  }

  lemma SmallUtf8(v: int)
    requires 0 <= v < 0x80
    ensures Utf8(v) == [v as char]
  {
  }

  lemma WeighMeaning(ds: string, hex: bool)
    requires AllDigits(ds, hex)
    ensures Congruent(Weigh(ds, hex, 1, 0), Positional(ds, hex))
    ensures |ds| <= (if hex then 8 else 9) ==> Weigh(ds, hex, 1, 0) == Positional(ds, hex)
  {
    hide Weigh;
    hide Positional;
    hide AllDigits;
    hide NoWrap;
    WeighIsPositional(ds, hex, 1, 0);
    if |ds| <= (if hex then 8 else 9) {
      ShortReferencesFit(hex, |ds|);
      WeighIsExact(ds, hex, 1, 0);
    }
  }

  /** "&#" [x] digits ";" followed by anything is such a text. */
  lemma CharacterRefValue(ds: string, hex: bool, rest: string)
    requires ds != [] && AllDigits(ds, hex) && |ds| <= (if hex then 8 else 9)
    ensures var s := (if hex then "&#x" else "&#") + ds + ";" + rest;
            GetCharacterRef(s) == Ref(Utf8(Positional(ds, hex)), |s| - |rest|)
  {
    var pre := if hex then "&#x" else "&#";
    var s := pre + ds + ";" + rest;
    var k := |pre| + |ds|;
    DigitsAreNotSpecial(ds, hex);
    assert s[|pre|..k] == ds;
    assert s[k] == ';' && s[|pre|] == ds[0];
    assert forall i :: |pre| <= i < k ==> s[i] == ds[i - |pre|];
    IndexOfIs(s, ';', |pre|, k);
    assert RefDigits(s) == ds;
    ReferenceMeaning(s);
  }

  lemma DigitsAreNotSpecial(ds: string, hex: bool)
    requires AllDigits(ds, hex)
    ensures forall i :: 0 <= i < |ds| ==> ds[i] != ';' && ds[i] != 'x' && ds[i] != '#'
  {
  }

  lemma {:induction false} IndexOfIs(s: string, c: char, from: nat, k: nat)
    requires from <= k < |s| && s[k] == c && forall i :: from <= i < k ==> s[i] != c
    ensures IndexOf(s, c, from) == k
    decreases k - from
  {
    if from < k {
      IndexOfIs(s, c, from + 1, k);
    }
  }

  lemma ShortReferencesFit(hex: bool, n: nat)
    requires n <= (if hex then 8 else 9)
    ensures NoWrap(1, hex, n)
  {
    if hex {
      assert NoWrap(65536, true, 4);
      FewerDigitsFit(1, true, n, 8);
    } else {
      assert NoWrap(100000, false, 4);
      FewerDigitsFit(1, false, n, 9);
    }
  }

  lemma {:induction false} FewerDigitsFit(mult: int, hex: bool, m: nat, n: nat)
    requires m <= n && NoWrap(mult, hex, n)
    ensures NoWrap(mult, hex, m)
    decreases n
  {
    if m > 0 {
      FewerDigitsFit(TimesBase(mult, hex), hex, m - 1, n - 1);
    }
  }

  // ---------- UTF-8 ----------

  /** Independent decoder for one UTF-8 sequence, by the table in section 3 of RFC 3629 (first column extended
      to the 21 bits the encoder accepts). It rejects overlong forms. */
  function FromUtf8(b: string): (r: Option<int>) {
    if |b| == 1 && b[0] as int < 0x80 then Some(b[0] as int)
    else if |b| == 2 && 0xC0 <= b[0] as int < 0xE0 && IsTrail(b[1]) then
      AtLeast(0x80, (b[0] as int - 0xC0) * 64 + Low(b[1]))
    else if |b| == 3 && 0xE0 <= b[0] as int < 0xF0 && IsTrail(b[1]) && IsTrail(b[2]) then
      AtLeast(0x800, (b[0] as int - 0xE0) * 4096 + Low(b[1]) * 64 + Low(b[2]))
    else if |b| == 4 && 0xF0 <= b[0] as int < 0xF8 && IsTrail(b[1]) && IsTrail(b[2]) && IsTrail(b[3]) then
      AtLeast(0x10000, (b[0] as int - 0xF0) * 262144 + Low(b[1]) * 4096 + Low(b[2]) * 64 + Low(b[3]))
    else None
  }

  function AtLeast(least: int, v: int): Option<int> {
    if v < least then None else Some(v)
  }

  predicate IsTrail(c: char) {
    0x80 <= c as int < 0xC0
  }

  function Low(c: char): int {
    c as int - 0x80
  }

  /** One code of each length. */
  lemma Utf8Examples()
    ensures Utf8(0x24) == ['\U{24}'] && Utf8(0xA3) == ['\U{C2}', '\U{A3}'] && Utf8(0x20AC) == ['\U{E2}', '\U{82}', '\U{AC}']
    ensures Utf8(0x10348) == ['\U{F0}', '\U{90}', '\U{8D}', '\U{88}'] && Utf8(0x200000) == []
  {
  }

  /** Encoding below 0x200000 decodes back, and every sequence the decoder accepts is the encoder's:
      so the output has minimal length and distinct codes have distinct encodings. */
  lemma Utf8RoundTrip(v: int, b: string)
    requires 0 <= v < 0x200000
    ensures FromUtf8(Utf8(v)) == Some(v)
    ensures FromUtf8(b) == Some(v) ==> b == Utf8(v)
  {
    var y := v / 64;
    var x := y / 64;
    var w := x / 64;
    assert v == y * 64 + v % 64 && y == x * 64 + y % 64 && x == w * 64 + x % 64;
    if FromUtf8(b) == Some(v) {
      SixBits(b);
    }
  }

  /** An accepted sequence is made of the six-bit groups of its value. */
  lemma SixBits(b: string)
    requires FromUtf8(b).Some?
    ensures b == Utf8(FromUtf8(b).value)
  {
    var v := FromUtf8(b).value;
    if |b| == 2 {
      Group(b[0] as int - 0xC0, Low(b[1]));
    } else if |b| == 3 {
      Group(b[0] as int - 0xE0, Low(b[1]));
      Group((b[0] as int - 0xE0) * 64 + Low(b[1]), Low(b[2]));
    } else if |b| == 4 {
      Group(b[0] as int - 0xF0, Low(b[1]));
      Group((b[0] as int - 0xF0) * 64 + Low(b[1]), Low(b[2]));
      Group(((b[0] as int - 0xF0) * 64 + Low(b[1])) * 64 + Low(b[2]), Low(b[3]));
    }
  }

  lemma Group(high: int, low: int)
    requires 0 <= low < 64
    ensures (high * 64 + low) / 64 == high && (high * 64 + low) % 64 == low
  {
  }

  // ---------- the code's own form ----------

  /** SkipWhiteSpace over a NUL-terminated stretch of a buffer. */
  method SkipWhiteSpace(buf: array<char>, p: nat, ghost n: nat) returns (q: nat)
    requires p <= n < buf.Length && buf[n] == NUL
    ensures p <= q <= n && buf[q..n] == SkipWS(buf[p..n])
  {
    q := p;
    while IsWhiteSpace(buf[q])
      invariant p <= q <= n
      invariant forall i :: p <= i < q ==> IsWhiteSpace(buf[i])
      decreases n - q
    {
      q := q + 1;
    }
    SkipWSIsUnique(buf[p..n], q - p);
    assert buf[p..n][q - p..] == buf[q..n];
  }

  /** ConvertUTF32ToUTF8 fills the output from its last byte backwards; each case falls through to the next. */
  method ConvertUTF32ToUTF8(input: int, output: array<char>) returns (length: nat)
    requires 0 <= input && output.Length >= 4
    modifies output
    ensures length == |Utf8(input)| && output[..length] == Utf8(input)
    ensures forall i :: length <= i < output.Length ==> output[i] == old(output[i])
  {
    if input < 0x80 {
      length := 1;
    } else if input < 0x800 {
      length := 2;
    } else if input < 0x10000 {
      length := 3;
    } else if input < 0x200000 {
      length := 4;
    } else {
      return 0;
    }
    var rest, at := input, length;
    if length >= 4 {
      at := at - 1;
      output[at] := (0x80 + rest % 64) as char;
      rest := rest / 64;
    }
    if length >= 3 {
      at := at - 1;
      output[at] := (0x80 + rest % 64) as char;
      rest := rest / 64;
    }
    if length >= 2 {
      at := at - 1;
      output[at] := (0x80 + rest % 64) as char;
      rest := rest / 64;
    }
    assert at == 1;
    var mark := if length == 1 then 0 else if length == 2 then 0xC0 else if length == 3 then 0xE0 else 0xF0;
    output[0] := (rest + mark) as char;
    assert output[..length] == Utf8(input);
  }
}
