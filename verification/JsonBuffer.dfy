/** The string buffer of strbuf.c and strbuf.h with its default doubling growth. */
module JsonBuffer {
  import opened Bytes

  const DEFAULT_SIZE := 1023

  ghost predicate IsDoubling(from: nat, to: nat)
    decreases to
  {
    to == from || (to > 0 && to % 2 == 0 && IsDoubling(from, to / 2))
  }

  /** `size` bytes are allocated. There is always room for a NUL after the contents. */
  class StrBuf {
    var buf: array<byte>
    var size: nat
    var length: nat

    ghost predicate Valid()
      reads this
    {
      buf.Length == size && length < size
    }

    ghost function Contents(): bytes
      reads this, buf
      requires Valid()
    {
      buf[..length]
    }

    /** Bytes that can be appended without growing. */
    function EmptyLength(): (n: nat)
      reads this
      requires Valid()
      ensures n == size - length - 1
    {
      size - length - 1
    }

    constructor (len: int)
      ensures Valid() && fresh(buf) && Contents() == []
      ensures size == if len <= 0 then DEFAULT_SIZE else len + 1
    {
      size := if len <= 0 then DEFAULT_SIZE else len + 1;
      buf := new byte[if len <= 0 then DEFAULT_SIZE else len + 1];
      length := 0;
      new;
      EnsureNull();
    }

    method EnsureNull()
      requires Valid()
      modifies buf
      ensures Contents() == old(Contents()) && buf[length] == 0
    {
      ghost var was := Contents();
      buf[length] := 0;
      assert buf[..length] == was;
    }

    method Reset()
      requires Valid()
      modifies this`length
      ensures Valid() && Contents() == []
    {
      length := 0;
    }

    /** Exactly what is asked when shrinking; otherwise the size doubles until it is enough. */
    method CalculateNewSize(len: nat) returns (newsize: nat)
      requires Valid() && len > 0
      ensures if size > len + 1 then newsize == len + 1
              else len + 1 <= newsize && (newsize == size || newsize < 2 * (len + 1)) && IsDoubling(size, newsize)
    {
      var reqsize := len + 1;
      if size > reqsize {
        return reqsize;
      }
      newsize := size;
      while newsize < reqsize
        invariant newsize > 0 && (newsize == size || newsize < 2 * reqsize) && IsDoubling(size, newsize)
        decreases reqsize - newsize
      {
        assert newsize * 2 / 2 == newsize;
        newsize := newsize * 2;
      }
    }

    method Resize(len: nat)
      requires Valid() && len > 0 && length <= len
      modifies this`buf, this`size
      ensures Valid() && fresh(buf) && length == old(length) && Contents() == old(Contents())
      ensures if old(size) > len + 1 then size == len + 1
              else len < size && (size == old(size) || size < 2 * (len + 1)) && IsDoubling(old(size), size)
    {
      var newsize := CalculateNewSize(len);
      var moved := new byte[newsize];
      forall i | 0 <= i < length {
        moved[i] := buf[i];
      }
      buf, size := moved, newsize;
    }

    method EnsureEmptyLength(len: nat)
      requires Valid()
      modifies this`buf, this`size
      ensures Valid() && length == old(length) && Contents() == old(Contents()) && len <= EmptyLength()
      ensures buf == old(buf) || fresh(buf)
      ensures size == old(size) || size < 2 * (length + len + 1)
    {
      if len > EmptyLength() {
        Resize(length + len);
      }
    }

    /** No check: the caller has reserved the room. */
    method AppendCharUnsafe(c: byte)
      requires Valid() && 1 <= EmptyLength()
      modifies this`length, buf
      ensures Valid() && length == old(length) + 1 && Contents() == old(Contents()) + [c]
    {
      ghost var was := Contents();
      buf[length] := c;
      length := length + 1;
      assert buf[..length - 1] == was;
    }

    method AppendMemUnsafe(s: bytes)
      requires Valid() && |s| <= EmptyLength()
      modifies this`length, buf
      ensures Valid() && length == old(length) + |s| && Contents() == old(Contents()) + s
    {
      ghost var was := Contents();
      forall i | 0 <= i < |s| {
        buf[length + i] := s[i];
      }
      assert buf[..length] == was && buf[length..length + |s|] == s;
      assert buf[..length + |s|] == buf[..length] + buf[length..length + |s|];
      length := length + |s|;
    }

    method AppendChar(c: byte)
      requires Valid()
      modifies this, buf
      ensures Valid() && (buf == old(buf) || fresh(buf)) && Contents() == old(Contents()) + [c]
      ensures size == old(size) || size < 2 * (length + 1)
    {
      EnsureEmptyLength(1);
      AppendCharUnsafe(c);
    }

    method AppendMem(s: bytes)
      requires Valid()
      modifies this, buf
      ensures Valid() && (buf == old(buf) || fresh(buf)) && Contents() == old(Contents()) + s
      ensures size == old(size) || size < 2 * (length + 1)
    {
      EnsureEmptyLength(|s|);
      AppendMemUnsafe(s);
    }

    /** Character by character, growing when the counted space runs out. */
    method AppendString(s: bytes)
      requires Valid()
      modifies this, buf
      ensures Valid() && (buf == old(buf) || fresh(buf))
      ensures Contents() == old(Contents()) + s && length == old(length) + |s|
      ensures |s| <= old(EmptyLength()) ==> size == old(size) && buf == old(buf)
    {
      var space, i := EmptyLength(), 0;
      ghost var was := Contents();
      while i < |s|
        invariant i <= |s|
        invariant Valid() && (buf == old(buf) || fresh(buf)) && space == EmptyLength()
        invariant length == old(length) + i && Contents() == was + s[..i]
        invariant |s| <= old(EmptyLength()) ==> size == old(size) && buf == old(buf)
      {
        if space < 1 {
          Resize(length + 1);
          space := EmptyLength();
        }
        Associative(was, s[..i], [s[i]]);
        assert s[..i] + [s[i]] == s[..i + 1];
        AppendCharUnsafe(s[i]);
        space := space - 1;
        i := i + 1;
      }
      assert s[..i] == s;
    }
  }
}
