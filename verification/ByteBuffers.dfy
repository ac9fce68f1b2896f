/** A bounded queue of bytes in a fixed array. */
module ByteBuffers {
  import opened DataUtil

  class ByteBuffer {
    const data: array<Byte>
    var length: nat

    ghost predicate Valid()
      reads this
    {
      length <= data.Length
    }

    ghost function Contents(): (r: seq<Byte>)
      reads this, data
      requires Valid()
      ensures |r| == length
    {
      data[..length]
    }

    constructor (size: nat)
      requires size > 0
      ensures Valid() && fresh(data) && data.Length == size && Contents() == []
    {
      data := new Byte[size];
      length := 0;
    }

    /** All of the bytes, or none of them when there is no room. */
    method AddData(src: array<Byte>, len: nat) returns (ok: bool)
      requires Valid() && len <= src.Length && src != data
      modifies this, data
      ensures Valid()
      ensures ok <==> |old(Contents())| + len <= data.Length
      ensures Contents() == if ok then old(Contents()) + src[..len] else old(Contents())
    {
      if length + len > data.Length {
        return false;
      }
      Copy(src, 0, data, length, len);
      length := length + len;
      return true;
    }

    /** The assertion of the source lets a negative length through, and copying that many bytes is undefined: nothing is copied
        here then, and the result is false. */
    method GetData(dst: array<Byte>, index: nat, len: int) returns (defined: bool)
      requires Valid() && index + len <= length && len <= dst.Length && dst != data
      modifies dst
      ensures defined <==> len >= 0
      ensures if defined then dst[..len] == Contents()[index..index + len] && dst[len..] == old(dst[len..]) else dst[..] == old(dst[..])
    {
      if len < 0 {
        return false;
      }
      Copy(data, index, dst, 0, len);
      return true;
    }

    /** Drops the first `len` bytes: the rest is moved to the front, over itself. */
    method RemoveData(len: nat)
      requires Valid() && len <= length
      modifies this, data
      ensures Valid() && Contents() == old(Contents())[len..]
    {
      length := length - len;
      if length > 0 {
        ghost var s := data[..];
        for i := 0 to length
          invariant length == old(length) - len
          invariant data[..i] == s[len..len + i] && data[i..] == s[i..]
        {
          assert data[i..][len] == s[i..][len];
          data[i] := data[i + len];
          assert s[len..len + i + 1] == s[len..len + i] + [s[len + i]];
          assert data[i + 1..] == data[i..][1..] == s[i + 1..];
        }
      }
    }

    method Clear()
      modifies this
      ensures Valid() && length == 0
    {
      length := 0;
    }
  }

  /** `memcpy` between different arrays. */
  method Copy(src: array<Byte>, from: nat, dst: array<Byte>, to: nat, len: nat)
    requires from + len <= src.Length && to + len <= dst.Length && src != dst
    modifies dst
    ensures dst[..to] == old(dst[..to]) && dst[to..to + len] == src[from..from + len] && dst[to + len..] == old(dst[to + len..])
  {
    for i := 0 to len
      invariant dst[..to] == old(dst[..to]) && dst[to..to + i] == src[from..from + i] && dst[to + i..] == old(dst[to + i..])
    {
      dst[to + i] := src[from + i];
    }
  }
}
