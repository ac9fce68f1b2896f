/** Little-endian integers and strings in byte arrays. */
module DataUtil {
  import opened Texts

  type Byte = b: int | 0 <= b < 256
  type Int16 = i: int | -0x8000 <= i < 0x8000
  type Int32 = i: int | -0x8000_0000 <= i < 0x8000_0000
  type Int64 = i: int | -0x8000_0000_0000_0000 <= i < 0x8000_0000_0000_0000
  type UInt16 = i: int | 0 <= i < 0x1_0000
  type UInt32 = i: int | 0 <= i < 0x1_0000_0000
  type UInt64 = i: int | 0 <= i < 0x1_0000_0000_0000_0000

  // ---------- the meaning of a run of bytes ----------

  function Power256(k: nat): (r: nat)
    ensures r > 0
  {
    if k == 0 then 1 else 256 * Power256(k - 1)
  }

  /** The lowest k bytes of a number, least significant first. */
  function ToBytes(v: nat, k: nat): (r: seq<Byte>)
    ensures |r| == k
  {
    if k == 0 then [] else [v % 256] + ToBytes(v / 256, k - 1)
  }

  function FromBytes(b: seq<Byte>): (r: nat)
    ensures r < Power256(|b|)
  {
    if b == [] then 0 else b[0] + 256 * FromBytes(b[1..])
  }

  lemma {:induction false} FromToBytes(v: nat, k: nat)
    requires v < Power256(k)
    ensures FromBytes(ToBytes(v, k)) == v
  {
    if k > 0 {
      FromToBytes(v / 256, k - 1);
      assert ToBytes(v, k)[1..] == ToBytes(v / 256, k - 1);
    }
  }

  lemma {:induction false} ToFromBytes(b: seq<Byte>)
    ensures ToBytes(FromBytes(b), |b|) == b
  {
    if b != [] {
      ToFromBytes(b[1..]);
      assert FromBytes(b) / 256 == FromBytes(b[1..]) && FromBytes(b) % 256 == b[0];
    }
  }

  lemma Powers()
    ensures Power256(2) == 0x1_0000 && Power256(4) == 0x1_0000_0000 && Power256(8) == 0x1_0000_0000_0000_0000
  {
    assert Power256(3) == 0x100_0000;
    assert Power256(4) == 0x1_0000_0000;
    assert Power256(5) == 0x100_0000_0000;
    assert Power256(6) == 0x1_0000_0000_0000;
    assert Power256(7) == 0x100_0000_0000_0000;
  }

  /** The two's complement casts between signed and unsigned integers of k bytes. */
  function Unsigned(i: int, k: nat): int {
    if i < 0 then i + Power256(k) else i
  }

  function Signed(u: nat, k: nat): int {
    if 2 * u < Power256(k) then u else u - Power256(k)
  }

  /** A signed integer of k bytes. */
  predicate Fits(i: int, k: nat) {
    0 <= Power256(k) + 2 * i < 2 * Power256(k)
  }

  /** What an integer looks like in an array: its two's complement, least significant byte first. */
  function Encode(i: int, k: nat): (r: seq<Byte>)
    requires Fits(i, k)
    ensures |r| == k
  {
    ToBytes(Unsigned(i, k), k)
  }

  function Decode(b: seq<Byte>): (r: int)
    ensures Fits(r, |b|)
  {
    Signed(FromBytes(b), |b|)
  }

  lemma DecodeEncode(i: int, k: nat)
    requires Fits(i, k)
    ensures Decode(Encode(i, k)) == i
  {
    FromToBytes(Unsigned(i, k), k);
  }

  lemma EncodeDecode(b: seq<Byte>)
    ensures Encode(Decode(b), |b|) == b
  {
    ToFromBytes(b);
  }

  /** The sign of an integer is the top bit of its last byte. */
  lemma {:induction false} SignIsTopBit(b: seq<Byte>)
    ensures Decode(b) < 0 <==> b != [] && b[|b| - 1] >= 0x80
  {
    TopBit(b);
  }

  lemma {:induction false} TopBit(b: seq<Byte>)
    ensures 2 * FromBytes(b) >= Power256(|b|) <==> b != [] && b[|b| - 1] >= 0x80
  {
    if |b| > 1 {
      TopBit(b[1..]);
      assert b[1..][|b| - 2] == b[|b| - 1];
    } else if b != [] {
      assert FromBytes(b[1..]) == 0 && Power256(1) == 256 * Power256(0);
    }
  }

  /** The sums that two and four bytes stand for. */
  function Two(b: seq<Byte>, i: nat): nat
    requires i + 2 <= |b|
  {
    var x: int, y: int := b[i], b[i + 1];
    x + 0x100 * y
  }

  function Four(b: seq<Byte>, i: nat): nat
    requires i + 4 <= |b|
  {
    var x: int, y: int, z: int, w: int := b[i], b[i + 1], b[i + 2], b[i + 3];
    x + 0x100 * y + 0x1_0000 * z + 0x100_0000 * w
  }

  /** Numbers of two, four and eight bytes, least significant byte first, two's complement. */
  lemma DecodeIs(b: seq<Byte>)
    ensures |b| == 2 ==> Decode(b) == Two(b, 0) - if b[1] >= 0x80 then 0x1_0000 else 0
    ensures |b| == 4 ==> Decode(b) == Four(b, 0) - if b[3] >= 0x80 then 0x1_0000_0000 else 0
    ensures |b| == 8 ==> Decode(b) == Four(b, 0) + 0x1_0000_0000 * Four(b, 4) - if b[7] >= 0x80 then 0x1_0000_0000_0000_0000 else 0
  {
    hide FromBytes, Power256;
    Powers();
    SignIsTopBit(b);
    if |b| == 2 {
      TwoIs(b);
    } else if |b| == 4 {
      FourIs(b);
    } else if |b| == 8 {
      FourIs(b[..4]);
      FourIs(b[4..]);
      assert b[..4] + b[4..] == b;
      FromHalves(b[..4], b[4..]);
    }
  }

  lemma FromStep(b: seq<Byte>)
    ensures b != [] ==> FromBytes(b) == b[0] + 0x100 * FromBytes(b[1..])
    ensures b == [] ==> FromBytes(b) == 0
  {
  }

  lemma TwoIs(b: seq<Byte>)
    requires |b| == 2
    ensures FromBytes(b) == Two(b, 0)
  {
    hide FromBytes;
    FromStep(b);
    FromStep(b[1..]);
    FromStep(b[1..][1..]);
  }

  lemma FourIs(b: seq<Byte>)
    requires |b| == 4
    ensures FromBytes(b) == Four(b, 0)
  {
    hide FromBytes;
    FromStep(b);
    FromStep(b[1..]);
    assert b[1..][1..] == b[2..];
    TwoIs(b[2..]);
  }

  lemma FromHalves(a: seq<Byte>, b: seq<Byte>)
    requires |a| == 4
    ensures FromBytes(a + b) == FromBytes(a) + 0x1_0000_0000 * FromBytes(b)
  {
    hide FromBytes;
    var s := a + b;
    FourIs(a);
    FromStep(s);
    FromStep(s[1..]);
    FromStep(s[1..][1..]);
    FromStep(s[1..][1..][1..]);
    assert s[1..][1..][1..][1..] == b;
  }

  // ---------- integers ----------

  /** The array with `bytes` written from `index` on. */
  function Written(s: seq<Byte>, index: nat, bytes: seq<Byte>): (r: seq<Byte>)
    requires index + |bytes| <= |s|
    ensures |r| == |s|
  {
    s[..index] + bytes + s[index + |bytes|..]
  }

  method WriteUInt64(src: array<Byte>, index: nat, value: UInt64) returns (next: nat)
    requires index + 8 <= src.Length
    modifies src
    ensures next == index + 8 && src[..] == Written(old(src[..]), index, ToBytes(value, 8))
  {
    hide ToBytes, Written;
    src[index + 7] := value / 0x100_0000_0000_0000 % 256;
    src[index + 6] := value / 0x1_0000_0000_0000 % 256;
    src[index + 5] := value / 0x100_0000_0000 % 256;
    src[index + 4] := value / 0x1_0000_0000 % 256;
    src[index + 3] := value / 0x100_0000 % 256;
    src[index + 2] := value / 0x1_0000 % 256;
    src[index + 1] := value / 0x100 % 256;
    src[index + 0] := value % 256;
    EightBytes(value);
    WrittenIs(old(src[..]), src[..], index, ToBytes(value, 8));
    return index + 8;
  }

  lemma WrittenIs(s: seq<Byte>, t: seq<Byte>, index: nat, bytes: seq<Byte>)
    requires index + |bytes| <= |s| == |t| && t[index..index + |bytes|] == bytes
    requires forall i :: 0 <= i < index || index + |bytes| <= i < |s| ==> t[i] == s[i]
    ensures t == Written(s, index, bytes)
  {
  }

  lemma EightBytes(v: nat)
    ensures ToBytes(v, 8) == [v % 256, v / 0x100 % 256, v / 0x1_0000 % 256, v / 0x100_0000 % 256, v / 0x1_0000_0000 % 256,
                              v / 0x100_0000_0000 % 256, v / 0x1_0000_0000_0000 % 256, v / 0x100_0000_0000_0000 % 256]
  {
    hide ToBytes;
    var w := v / 0x1_0000_0000;
    FourMore(v, 4);
    FourBytes(w);
    Shifted(v);
  }

  lemma Shifted(v: nat)
    ensures var w := v / 0x1_0000_0000;
            && w / 0x100 == v / 0x100_0000_0000 && w / 0x1_0000 == v / 0x1_0000_0000_0000 && w / 0x100_0000 == v / 0x100_0000_0000_0000
  {
  }

  lemma FourBytes(v: nat)
    ensures ToBytes(v, 4) == [v % 256, v / 0x100 % 256, v / 0x1_0000 % 256, v / 0x100_0000 % 256]
  {
    FourMore(v, 0);
    assert ToBytes(v / 0x1_0000_0000, 0) == [];
  }

  lemma TwoBytes(v: nat)
    ensures ToBytes(v, 2) == [v % 256, v / 0x100 % 256]
  {
    assert ToBytes(v / 256, 1) == [v / 256 % 256] + ToBytes(v / 256 / 256, 0);
  }

  lemma FourMore(v: nat, k: nat)
    ensures ToBytes(v, 4 + k) == [v % 256, v / 0x100 % 256, v / 0x1_0000 % 256, v / 0x100_0000 % 256] + ToBytes(v / 0x1_0000_0000, k)
  {
    hide ToBytes;
    var v1 := v / 256;
    var v2 := v1 / 256;
    var v3 := v2 / 256;
    OneByte(v, k + 4);
    OneByte(v1, k + 3);
    OneByte(v2, k + 2);
    OneByte(v3, k + 1);
  }

  lemma OneByte(v: nat, k: nat)
    requires k > 0
    ensures ToBytes(v, k) == [v % 256] + ToBytes(v / 256, k - 1)
  {
  }

  method ReadUInt64(src: array<Byte>, index: nat, next: nat) returns (value: UInt64, next': nat)
    requires index + 8 <= src.Length
    ensures value == FromBytes(src[index..index + 8]) && next' == next + 8
  {
    var b7 := src[index + 7] as int * 0x100_0000_0000_0000;
    var b6 := src[index + 6] as int * 0x1_0000_0000_0000;
    var b5 := src[index + 5] as int * 0x100_0000_0000;
    var b4 := src[index + 4] as int * 0x1_0000_0000;
    var b3 := src[index + 3] as int * 0x100_0000;
    var b2 := src[index + 2] as int * 0x1_0000;
    var b1 := src[index + 1] as int * 0x100;
    var b0 := src[index + 0] as int;
    var v := b7 + b6 + b5 + b4 + b3 + b2 + b1 + b0;  // the bytes do not overlap, so `|` adds them
    FromFour(src[index..index + 8]);
    FromFour(src[index..index + 8][4..]);
    FromNone(src[index..index + 8][4..][4..]);
    return v, next + 8;
  }

  lemma FromFour(b: seq<Byte>)
    requires |b| >= 4
    ensures FromBytes(b) == b[0] + 0x100 * b[1] + 0x1_0000 * b[2] + 0x100_0000 * b[3] + 0x1_0000_0000 * FromBytes(b[4..])
  {
    hide FromBytes;
    FromOne(b);
    FromOne(b[1..]);
    FromOne(b[2..]);
    FromOne(b[3..]);
    assert b[1..][1..] == b[2..] && b[2..][1..] == b[3..] && b[3..][1..] == b[4..];
  }

  lemma FromOne(b: seq<Byte>)
    requires b != []
    ensures FromBytes(b) == b[0] + 256 * FromBytes(b[1..])
  {
  }

  lemma FromNone(b: seq<Byte>)
    requires b == []
    ensures FromBytes(b) == 0
  {
  }

  method WriteUInt32(src: array<Byte>, index: nat, value: UInt32) returns (next: nat)
    requires index + 4 <= src.Length
    modifies src
    ensures next == index + 4 && src[..] == Written(old(src[..]), index, ToBytes(value, 4))
  {
    src[index + 3] := value / 0x100_0000 % 256;
    src[index + 2] := value / 0x1_0000 % 256;
    src[index + 1] := value / 0x100 % 256;
    src[index + 0] := value % 256;
    FourBytes(value);
    return index + 4;
  }

  method ReadUInt32(src: array<Byte>, index: nat, next: nat) returns (value: UInt32, next': nat)
    requires index + 4 <= src.Length
    ensures value == FromBytes(src[index..index + 4]) && next' == next + 4
  {
    var b3 := src[index + 3] as int * 0x100_0000;
    var b2 := src[index + 2] as int * 0x1_0000;
    var b1 := src[index + 1] as int * 0x100;
    var b0 := src[index + 0] as int;
    var v := b3 + b2 + b1 + b0;
    FromFour(src[index..index + 4]);
    FromNone(src[index..index + 4][4..]);
    return v, next + 4;
  }

  method WriteUInt16(src: array<Byte>, index: nat, value: UInt16) returns (next: nat)
    requires index + 2 <= src.Length
    modifies src
    ensures next == index + 2 && src[..] == Written(old(src[..]), index, ToBytes(value, 2))
  {
    src[index + 1] := value / 0x100 % 256;
    src[index + 0] := value % 256;
    TwoBytes(value);
    return index + 2;
  }

  method ReadUInt16(src: array<Byte>, index: nat, next: nat) returns (value: UInt16, next': nat)
    requires index + 2 <= src.Length
    ensures value == FromBytes(src[index..index + 2]) && next' == next + 2
  {
    var b1 := src[index + 1] as int * 0x100;
    var b0 := src[index + 0] as int;
    var v := b1 + b0;
    FromOne(src[index..index + 2]);
    FromOne(src[index..index + 2][1..]);
    return v, next + 2;
  }

  method WriteInt64(src: array<Byte>, index: nat, value: Int64) returns (next: nat)
    requires index + 8 <= src.Length
    modifies src
    ensures Fits(value, 8) && next == index + 8 && src[..] == Written(old(src[..]), index, Encode(value, 8))
  {
    Powers();
    next := WriteUInt64(src, index, Unsigned(value, 8));
  }

  method ReadInt64(src: array<Byte>, index: nat, next: nat) returns (value: Int64, next': nat)
    requires index + 8 <= src.Length
    ensures value == Decode(src[index..index + 8]) && next' == next + 8
  {
    Powers();
    var u;
    u, next' := ReadUInt64(src, index, next);
    value := Signed(u, 8);
  }

  method WriteInt32(src: array<Byte>, index: nat, value: Int32) returns (next: nat)
    requires index + 4 <= src.Length
    modifies src
    ensures Fits(value, 4) && next == index + 4 && src[..] == Written(old(src[..]), index, Encode(value, 4))
  {
    Powers();
    next := WriteUInt32(src, index, Unsigned(value, 4));
  }

  method ReadInt32(src: array<Byte>, index: nat, next: nat) returns (value: Int32, next': nat)
    requires index + 4 <= src.Length
    ensures value == Decode(src[index..index + 4]) && next' == next + 4
  {
    Powers();
    var u;
    u, next' := ReadUInt32(src, index, next);
    value := Signed(u, 4);
  }

  method WriteInt16(src: array<Byte>, index: nat, value: Int16) returns (next: nat)
    requires index + 2 <= src.Length
    modifies src
    ensures Fits(value, 2) && next == index + 2 && src[..] == Written(old(src[..]), index, Encode(value, 2))
  {
    Powers();
    next := WriteUInt16(src, index, Unsigned(value, 2));
  }

  method ReadInt16(src: array<Byte>, index: nat, next: nat) returns (value: Int16, next': nat)
    requires index + 2 <= src.Length
    ensures value == Decode(src[index..index + 2]) && next' == next + 2
  {
    Powers();
    var u;
    u, next' := ReadUInt16(src, index, next);
    value := Signed(u, 2);
  }

  // ---------- strings ----------

  predicate ZeroFree(s: seq<Byte>) {
    forall i :: 0 <= i < |s| ==> s[i] != 0
  }

  /** The C string at the start of `s`: everything before the first zero. */
  function CString(s: seq<Byte>): (r: seq<Byte>)
    ensures r <= s && ZeroFree(r)
    ensures |r| < |s| ==> s[|r|] == 0
  {
    Until(s, 0)
  }

  lemma CStringIsUnique(s: seq<Byte>, k: nat)
    requires k <= |s| && ZeroFree(s[..k]) && (k < |s| ==> s[k] == 0)
    ensures CString(s) == s[..k]
  {
    assert forall i :: 0 <= i < k ==> s[..k][i] == s[i];
    UntilIsUnique(s, 0, k);
  }

  function Zeros(k: nat): (r: seq<Byte>)
    ensures |r| == k && forall i :: 0 <= i < k ==> r[i] == 0
  {
    seq(k, _ => 0)
  }

  /** What WriteString puts at its index: without a width, the length with the final zero as an Int32 and then the C string of
      `value`; with a width n, the first n bytes of `value`, filled up with zeros. */
  function StringBytes(value: seq<Byte>, n: nat): (r: seq<Byte>)
    requires |value| + 1 < 0x8000_0000
  {
    Powers();
    if n == 0 then Encode(|value| + 1, 4) + CString(value) + [0]
    else if |value| < n then value + Zeros(n - |value|)
    else value[..n]
  }

  method CopyTo(dst: array<Byte>, index: nat, s: seq<Byte>)
    requires index + |s| <= dst.Length
    modifies dst
    ensures dst[..] == Written(old(dst[..]), index, s)
  {
    for i := 0 to |s|
      invariant dst[..index] == old(dst[..index]) && dst[index..index + i] == s[..i] && dst[index + i..] == old(dst[index + i..])
    {
      dst[index + i] := s[i];
    }
    assert dst[..] == dst[..index] + dst[index..index + |s|] + dst[index + |s|..];
  }

  lemma WrittenTwice(s: seq<Byte>, index: nat, a: seq<Byte>, b: seq<Byte>)
    requires index + |a| + |b| <= |s|
    ensures Written(Written(s, index, a), index + |a|, b) == Written(s, index, a + b)
  {
  }

  /** `strcpy` copies no further than the first zero, so a shorter string leaves old bytes behind it. */
  method WriteString(src: array<Byte>, index: nat, value: seq<Byte>, n: nat) returns (next: nat)
    requires |value| + 1 < 0x8000_0000
    requires index + (if n == 0 then |value| + 5 else n) <= src.Length
    modifies src
    ensures next == index + (if n == 0 then |value| + 5 else n)
    ensures src[..] == Written(old(src[..]), index, StringBytes(value, n))
  {
    hide Encode, CString, StringBytes, Written, Fits;
    ghost var s := src[..];
    var len := |value| + 1;
    if n == 0 {
      LengthFits(value);
      var at := WriteInt32(src, index, len);
      WrittenTwice(s, index, Encode(len, 4), CString(value) + [0]);
      assert Encode(len, 4) + (CString(value) + [0]) == StringBytes(value, n);
      CopyTo(src, at, CString(value) + [0]);
      next := at + len;
    } else {
      var num := if len < n then len else n;
      var head := (value + [0])[..num];
      FixedBytes(value, n, num);
      CopyTo(src, index, head);
      WrittenTwice(s, index, head, Zeros(n - num));
      CopyTo(src, index + num, Zeros(n - num));
      next := index + n;
    }
  }

  lemma FixedBytes(value: seq<Byte>, n: nat, num: nat)
    requires 0 < n && |value| + 1 < 0x8000_0000 && num == if |value| + 1 < n then |value| + 1 else n
    ensures (value + [0])[..num] + Zeros(n - num) == StringBytes(value, n)
  {
  }

  /** Where the characters of a string at the start of `s` are, and how many there may be: n, or as many as the length in front says. */
  function StringBody(s: seq<Byte>, n: nat): seq<Byte>
    requires n == 0 ==> |s| >= 4
  {
    if n == 0 then s[4..] else s
  }

  function StringWidth(s: seq<Byte>, n: nat): int
    requires n == 0 ==> |s| >= 4
  {
    if n == 0 then Decode(s[..4]) else n
  }

  /** Reading the string stays inside `s`: there is room for that many characters, or a zero comes before the end. The length is
      compared as an unsigned number, so a negative one is no limit at all. */
  predicate HasString(s: seq<Byte>, n: nat)
    requires n == 0 ==> |s| >= 4
  {
    0 <= StringWidth(s, n) <= |StringBody(s, n)| || !ZeroFree(StringBody(s, n))
  }

  /** The string that ReadString finds at the start of `s`. */
  function ReadBytes(s: seq<Byte>, n: nat): seq<Byte>
    requires (n == 0 ==> |s| >= 4) && HasString(s, n)
  {
    var t, len := StringBody(s, n), StringWidth(s, n);
    CString(if 0 <= len <= |t| then t[..len] else t)
  }

  /** A length in front that is taken as it comes. */
  lemma UncheckedExample()
    ensures !HasString([0xFF, 0xFF, 0xFF, 0xFF, 1], 0)
  {
    var s: seq<Byte> := [0xFF, 0xFF, 0xFF, 0xFF, 1];
    SignIsTopBit(s[..4]);
    assert s[4..] == [1];
  }

  /** Without a width the length comes first; either way no more than the C string within the length is taken. What lies behind the
      array is not modelled: `inside` says whether it is left alone. */
  method ReadString(src: array<Byte>, index: nat, n: nat) returns (value: seq<Byte>, next: int, inside: bool)
    requires index + (if n == 0 then 4 else 0) <= src.Length
    ensures inside <==> HasString(src[index..], n)
    ensures inside ==> value == ReadBytes(src[index..], n)
    ensures next == index + StringWidth(src[index..], n) + if n == 0 then 4 else 0
  {
    hide Decode, CString, ZeroFree;
    var at: nat, len: int := index, n;
    if n == 0 {
      len, at := ReadInt32(src, index, index);
      assert src[index..][..4] == src[index..index + 4];
    }
    assert src[at..] == StringBody(src[index..], n);
    value, inside := StrNLen(src, at, len);
    next := at + len;
  }

  /** `strnlen` and the string it delimits. */
  method StrNLen(src: array<Byte>, at: nat, len: int) returns (value: seq<Byte>, inside: bool)
    requires at <= src.Length
    ensures var t := src[at..];
            && (inside <==> 0 <= len <= |t| || !ZeroFree(t))
            && (inside ==> value == CString(if 0 <= len <= |t| then t[..len] else t))
  {
    hide CString;
    ghost var t := src[at..];
    var k, limit := 0, src.Length - at;
    if 0 <= len <= limit {
      limit := len;
    }
    while k < limit && src[at + k] != 0
      invariant k <= limit && ZeroFree(t[..k])
    {
      assert t[..k + 1] == t[..k] + [src[at + k]];
      k := k + 1;
    }
    value := src[at..at + k];
    assert value == t[..k] && (k < limit ==> t[k] == 0);
    inside := k < limit || limit == len;
    CStringIsUnique(t[..limit], k);
    assert t[..limit][..k] == t[..k] && t[..|t|] == t;
  }

  lemma CStringStarts(t: seq<Byte>, c: seq<Byte>)
    requires |c| < |t| && t[..|c|] == c && ZeroFree(c) && t[|c|] == 0
    ensures CString(t) == c
  {
    CStringIsUnique(t, |c|);
  }

  /** Reading a string back: with a length in front, everything before its first zero byte comes back; with a width n, everything
      before the first zero among its first n bytes. */
  lemma StringRoundTrip(value: seq<Byte>, n: nat, s: seq<Byte>, index: nat)
    requires |value| + 1 < 0x8000_0000 && index + (if n == 0 then |value| + 5 else n) <= |s|
    ensures index + |StringBytes(value, n)| <= |s|
    ensures var w := Written(s, index, StringBytes(value, n))[index..];
            && HasString(w, n) && (n == 0 ==> Decode(w[..4]) == |value| + 1)
            && ReadBytes(w, n) == CString(if n == 0 || |value| < n then value else value[..n])
  {
    hide Decode, Encode, CString, StringBytes;
    BytesLength(value, n);
    var b := StringBytes(value, n);
    var w := Written(s, index, b)[index..];
    assert w[..|b|] == b;
    if n == 0 {
      PrefixedRoundTrip(value, w);
      assert StringBody(w, n)[..|value| + 1] == w[4..4 + |value| + 1];
    } else {
      assert w[..n] == b;
      assert StringWidth(w, n) == n <= |StringBody(w, n)| && StringBody(w, n)[..n] == b;
      FixedRoundTrip(value, n);
    }
  }

  lemma BytesLength(value: seq<Byte>, n: nat)
    requires |value| + 1 < 0x8000_0000
    ensures if n == 0 then 4 < |StringBytes(value, n)| <= |value| + 5 else |StringBytes(value, n)| == n
  {
  }

  lemma PrefixedRoundTrip(value: seq<Byte>, w: seq<Byte>)
    requires |value| + 1 < 0x8000_0000 && |value| + 5 <= |w| && StringBytes(value, 0) <= w
    ensures Decode(w[..4]) == |value| + 1 && CString(w[4..4 + |value| + 1]) == CString(value)
  {
    hide Decode, Encode, CString, Power256, Fits, StringBytes;
    LengthFits(value);
    var e, c, m := Encode(|value| + 1, 4), CString(value), |value| + 1;
    DecodeEncode(m, 4);
    PrefixParts(e, c, w, m);
    CStringStarts(w[4..4 + m], c);
  }

  lemma LengthFits(value: seq<Byte>)
    requires |value| + 1 < 0x8000_0000
    ensures Fits(|value| + 1, 4) && StringBytes(value, 0) == Encode(|value| + 1, 4) + CString(value) + [0]
  {
    hide Encode, CString;
    Powers();
  }

  lemma PrefixParts(e: seq<Byte>, c: seq<Byte>, w: seq<Byte>, m: nat)
    requires |e| == 4 && |c| < m && 4 + m <= |w| && e + c + [0] <= w
    ensures w[..4] == e && w[4..4 + m][..|c|] == c && w[4..4 + m][|c|] == 0
  {
    var b := e + c + [0];
    assert forall i :: 0 <= i < |b| ==> w[i] == b[i];
    assert b[4 + |c|] == 0 && forall i :: 0 <= i < |c| ==> b[4 + i] == c[i];
  }

  lemma FixedRoundTrip(value: seq<Byte>, n: nat)
    requires 0 < n && |value| + 1 < 0x8000_0000
    ensures CString(StringBytes(value, n)) == CString(if |value| < n then value else value[..n])
  {
    hide CString, Encode;
    if |value| < n {
      PaddedString(value, n - |value|);
    }
  }

  lemma PaddedString(value: seq<Byte>, k: nat)
    requires k > 0
    ensures CString(value + Zeros(k)) == CString(value)
  {
    hide CString;
    var b, c := value + Zeros(k), CString(value);
    assert b[..|c|] == value[..|c|] == c;
    assert b[|c|] == if |c| < |value| then value[|c|] else Zeros(k)[0];
    CStringStarts(b, c);
  }

  /** So exactly the strings without zeros survive the trip with a length in front. */
  lemma StringSurvives(value: seq<Byte>, s: seq<Byte>, index: nat)
    requires |value| + 1 < 0x8000_0000 && index + |value| + 5 <= |s|
    ensures index + |StringBytes(value, 0)| <= |s|
    ensures var w := Written(s, index, StringBytes(value, 0))[index..];
            HasString(w, 0) && Decode(w[..4]) == |value| + 1 && (ReadBytes(w, 0) == value <==> ZeroFree(value))
  {
    StringRoundTrip(value, 0, s, index);
    if ZeroFree(value) {
      assert value[..|value|] == value;
      CStringIsUnique(value, |value|);
    }
  }
}
