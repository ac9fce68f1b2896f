/** The 28-byte header in front of every package. */
module NetPackage {
  import opened DataUtil

  const HEADER_SIGN: Byte := 0x58
  const HEADER_SIZE: nat := 28

  datatype Header = Header(sign: Byte, randSeed: Byte, checkSum: Byte, node: Byte, compress: Int32, index: Int16, recvIndex: Int16,
                           command: Int32, guid: Int64, bodySize: Int32)

  const NO_HEADER := Header(0, 0, 0, 0, 0, 0, 0, 0, 0, 0)

  lemma AllFit(h: Header)
    ensures Fits(h.compress, 4) && Fits(h.index, 2) && Fits(h.recvIndex, 2) && Fits(h.command, 4) && Fits(h.guid, 8) && Fits(h.bodySize, 4)
  {
    Powers();
  }

  /** The header on the wire. */
  function PackBytes(h: Header): (r: seq<Byte>)
    ensures |r| == HEADER_SIZE && r[0] == h.sign
  {
    AllFit(h);
    [h.sign, h.randSeed, h.checkSum, h.node] + Encode(h.compress, 4) + Encode(h.index, 2) + Encode(h.recvIndex, 2)
    + Encode(h.command, 4) + Encode(h.guid, 8) + Encode(h.bodySize, 4)
  }

  lemma Narrow(b: seq<Byte>)
    ensures |b| == 2 ==> -0x8000 <= Decode(b) < 0x8000
    ensures |b| == 4 ==> -0x8000_0000 <= Decode(b) < 0x8000_0000
    ensures |b| == 8 ==> -0x8000_0000_0000_0000 <= Decode(b) < 0x8000_0000_0000_0000
  {
    hide Decode;
    Powers();
  }

  function ReadHeader(b: seq<Byte>): Header
    requires |b| == HEADER_SIZE
  {
    Narrow(b[4..8]);
    Narrow(b[8..10]);
    Narrow(b[10..12]);
    Narrow(b[12..16]);
    Narrow(b[16..24]);
    Narrow(b[24..28]);
    Header(b[0], b[1], b[2], b[3], Decode(b[4..8]), Decode(b[8..10]), Decode(b[10..12]), Decode(b[12..16]), Decode(b[16..24]),
           Decode(b[24..28]))
  }

  lemma Parts(a: seq<Byte>, b: seq<Byte>, c: seq<Byte>, d: seq<Byte>, e: seq<Byte>, f: seq<Byte>, g: seq<Byte>)
    requires |a| == 4 && |b| == 4 && |c| == 2 && |d| == 2 && |e| == 4 && |f| == 8 && |g| == 4
    ensures var s := a + b + c + d + e + f + g;
            && |s| == 28 && s[..4] == a && s[4..8] == b && s[8..10] == c && s[10..12] == d && s[12..16] == e && s[16..24] == f && s[24..28] == g
  {
  }

  /** Whatever is packed comes back, two's complement fields included. */
  lemma UnpackUndoesPack(h: Header)
    ensures ReadHeader(PackBytes(h)) == h
  {
    hide Encode, Decode, Fits;
    AllFit(h);
    Parts([h.sign, h.randSeed, h.checkSum, h.node], Encode(h.compress, 4), Encode(h.index, 2), Encode(h.recvIndex, 2),
          Encode(h.command, 4), Encode(h.guid, 8), Encode(h.bodySize, 4));
    var b := PackBytes(h);
    assert b[..4][0] == b[0] && b[..4][1] == b[1] && b[..4][2] == b[2] && b[..4][3] == b[3];
    DecodeEncode(h.compress, 4);
    DecodeEncode(h.index, 2);
    DecodeEncode(h.recvIndex, 2);
    DecodeEncode(h.command, 4);
    DecodeEncode(h.guid, 8);
    DecodeEncode(h.bodySize, 4);
  }

  /** Every block of 28 bytes is the packed form of the header that is read from it. */
  lemma PackUndoesUnpack(b: seq<Byte>)
    requires |b| == HEADER_SIZE
    ensures PackBytes(ReadHeader(b)) == b
  {
    hide Encode, Decode, Fits;
    EncodeDecode(b[4..8]);
    EncodeDecode(b[8..10]);
    EncodeDecode(b[10..12]);
    EncodeDecode(b[12..16]);
    EncodeDecode(b[16..24]);
    EncodeDecode(b[24..28]);
    AllFit(ReadHeader(b));
    assert b == [b[0], b[1], b[2], b[3]] + b[4..8] + b[8..10] + b[10..12] + b[12..16] + b[16..24] + b[24..28];
  }

  lemma HeaderAt(src: array<Byte>, at: nat, h: Header)
    requires at + HEADER_SIZE <= src.Length
    requires h.sign == src[at] && h.randSeed == src[at + 1] && h.checkSum == src[at + 2] && h.node == src[at + 3]
    requires h.compress == Decode(src[at + 4..at + 8]) && h.index == Decode(src[at + 8..at + 10])
    requires h.recvIndex == Decode(src[at + 10..at + 12]) && h.command == Decode(src[at + 12..at + 16])
    requires h.guid == Decode(src[at + 16..at + 24]) && h.bodySize == Decode(src[at + 24..at + 28])
    ensures h == ReadHeader(src[at..at + HEADER_SIZE])
  {
    hide Decode;
    var b := src[at..at + HEADER_SIZE];
    assert b[4..8] == src[at + 4..at + 8] && b[8..10] == src[at + 8..at + 10] && b[10..12] == src[at + 10..at + 12];
    assert b[12..16] == src[at + 12..at + 16] && b[16..24] == src[at + 16..at + 24] && b[24..28] == src[at + 24..at + 28];
  }

  /** Where each field stands in the 28 bytes: four single bytes, then numbers, least significant byte first, two's complement. */
  lemma HeaderLayout(h: Header)
    ensures var b := PackBytes(h);
            && b[0] == h.sign && b[1] == h.randSeed && b[2] == h.checkSum && b[3] == h.node
            && h.compress == Four(b, 4) - (if b[7] >= 0x80 then 0x1_0000_0000 else 0)
            && h.index == Two(b, 8) - (if b[9] >= 0x80 then 0x1_0000 else 0)
            && h.recvIndex == Two(b, 10) - (if b[11] >= 0x80 then 0x1_0000 else 0)
            && h.command == Four(b, 12) - (if b[15] >= 0x80 then 0x1_0000_0000 else 0)
            && h.guid == Four(b, 16) + 0x1_0000_0000 * Four(b, 20) - (if b[23] >= 0x80 then 0x1_0000_0000_0000_0000 else 0)
            && h.bodySize == Four(b, 24) - (if b[27] >= 0x80 then 0x1_0000_0000 else 0)
  {
    hide PackBytes, Decode;
    UnpackUndoesPack(h);
    var b := PackBytes(h);
    DecodeIs(b[4..8]);
    DecodeIs(b[8..10]);
    DecodeIs(b[10..12]);
    DecodeIs(b[12..16]);
    DecodeIs(b[16..24]);
    DecodeIs(b[24..28]);
  }

  class NetPackageHeader {
    var sign: Byte
    var randSeed: Byte
    var checkSum: Byte
    var node: Byte
    var compress: Int32
    var index: Int16
    var recvIndex: Int16
    var command: Int32
    var guid: Int64
    var bodySize: Int32

    ghost function Value(): Header
      reads this
    {
      Header(sign, randSeed, checkSum, node, compress, index, recvIndex, command, guid, bodySize)
    }

    constructor ()
      ensures Value() == NO_HEADER
    {
      sign, randSeed, checkSum, node, compress, index, recvIndex, command, guid, bodySize := 0, 0, 0, 0, 0, 0, 0, 0, 0, 0;
    }

    method Reset()
      modifies this
      ensures Value() == NO_HEADER
    {
      sign, randSeed, checkSum, node, compress, index, recvIndex, command, guid, bodySize := 0, 0, 0, 0, 0, 0, 0, 0, 0, 0;
    }

    method SetSign()
      modifies this
      ensures Value() == old(Value()).(sign := HEADER_SIGN)
    {
      sign := HEADER_SIGN;
    }

    /** A copy of the structure. */
    method Copied() returns (h: Header)
      ensures h == Value()
    {
      h := Header(sign, randSeed, checkSum, node, compress, index, recvIndex, command, guid, bodySize);
    }

    method SetTo(h: Header)
      modifies this
      ensures Value() == h
    {
      sign, randSeed, checkSum, node := h.sign, h.randSeed, h.checkSum, h.node;
      compress, index, recvIndex, command, guid, bodySize := h.compress, h.index, h.recvIndex, h.command, h.guid, h.bodySize;
    }

    /** Plain structure assignment. */
    method Assign(other: NetPackageHeader)
      modifies this
      ensures Value() == other.Value()
    {
      var h := other.Copied();
      SetTo(h);
    }

    method Unpack(src: array<Byte>, at: nat) returns (next: nat)
      requires at + HEADER_SIZE <= src.Length
      modifies this
      ensures next == at + HEADER_SIZE && Value() == ReadHeader(src[at..at + HEADER_SIZE])
    {
      hide Decode, ReadHeader;
      var i, c, x, r, m, g, b := at + 4, 0, 0, 0, 0, 0, 0;
      c, i := ReadInt32(src, i, i);
      x, i := ReadInt16(src, i, i);
      r, i := ReadInt16(src, i, i);
      m, i := ReadInt32(src, i, i);
      g, i := ReadInt64(src, i, i);
      b, i := ReadInt32(src, i, i);
      var h := Header(src[at], src[at + 1], src[at + 2], src[at + 3], c, x, r, m, g, b);
      HeaderAt(src, at, h);
      SetTo(h);
      return i;
    }

    method Pack(src: array<Byte>, at: nat) returns (next: nat)
      requires at + HEADER_SIZE <= src.Length
      modifies src
      ensures next == at + HEADER_SIZE && src[..] == Written(old(src[..]), at, PackBytes(Value()))
    {
      hide Encode, Fits, Written;
      ghost var s, h := src[..], Value();
      var i := at;
      src[i], i := sign, i + 1;
      src[i], i := randSeed, i + 1;
      src[i], i := checkSum, i + 1;
      src[i], i := node, i + 1;
      ghost var done := [sign, randSeed, checkSum, node];
      WrittenIs(s, src[..], at, done);
      i := WriteInt32(src, i, compress);
      WrittenTwice(s, at, done, Encode(compress, 4));
      done := done + Encode(compress, 4);
      i := WriteInt16(src, i, index);
      WrittenTwice(s, at, done, Encode(index, 2));
      done := done + Encode(index, 2);
      i := WriteInt16(src, i, recvIndex);
      WrittenTwice(s, at, done, Encode(recvIndex, 2));
      done := done + Encode(recvIndex, 2);
      i := WriteInt32(src, i, command);
      WrittenTwice(s, at, done, Encode(command, 4));
      done := done + Encode(command, 4);
      i := WriteInt64(src, i, guid);
      WrittenTwice(s, at, done, Encode(guid, 8));
      done := done + Encode(guid, 8);
      i := WriteInt32(src, i, bodySize);
      WrittenTwice(s, at, done, Encode(bodySize, 4));
      return i;
    }
  }
}
