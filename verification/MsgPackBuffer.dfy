/** The growing output buffer of lua_cmsgpack.c and the encoder that appends to it. */
module MsgPackBuffer {
  import opened Bytes
  import opened LuaValues
  import opened LuaTables
  import opened MsgPack

  /** `appended` counts all bytes ever appended, and `carried` the bytes that reallocations had to copy. */
  class MpBuf {
    var b: array<byte>
    var len: nat
    var free: nat
    ghost var appended: nat
    ghost var carried: nat

    ghost predicate Valid()
      reads this
    {
      && b.Length == len + free
      && len <= appended
      && carried <= b.Length <= 2 * appended
    }

    ghost function Contents(): bytes
      reads this, b
      requires Valid()
    {
      b[..len]
    }

    constructor ()
      ensures Valid() && fresh(b)
      ensures Contents() == [] && appended == 0
    {
      b := new byte[0];
      len, free := 0, 0;
      appended, carried := 0, 0;
    }

    /** Moves the contents to a buffer of the given size. */
    method Grow(newsize: nat)
      requires b.Length == len + free && len <= newsize
      modifies this
      ensures fresh(b) && b.Length == newsize == len + free && b[..len] == old(b[..len])
      ensures len == old(len) && appended == old(appended) && carried == old(carried) + len
    {
      var nb := new byte[newsize];
      forall i | 0 <= i < len {
        nb[i] := b[i];
      }
      carried := carried + len;
      b, free := nb, newsize - len;
    }

    /** Appends in place, or moves to a buffer of twice the size needed. Over any run of appends and resets the
        bytes carried over never exceed the capacity, which is at most twice what was appended. */
    method Append(s: bytes)
      requires Valid()
      modifies this, b
      ensures Valid() && (b == old(b) || fresh(b))
      ensures Contents() == old(Contents()) + s
      ensures appended == old(appended) + |s|
      ensures if old(free) < |s| then b.Length == 2 * |Contents()| && carried == old(carried) + old(len)
              else b == old(b) && carried == old(carried)
    {
      if free < |s| {
        Grow((len + |s|) * 2);
      }
      ghost var before := b[..len];
      forall i | 0 <= i < |s| {
        b[len + i] := s[i];
      }
      JoinedAt(b[..], before, s);
      len, free := len + |s|, free - |s|;
      appended := appended + |s|;
    }

    /** Empties the buffer for reuse and keeps its storage. */
    method Reset()
      requires Valid()
      modifies this
      ensures Valid() && Contents() == [] && b == old(b)
      ensures appended == old(appended) && carried == old(carried)
    {
      free := free + len;
      len := 0;
    }
  }

  lemma JoinedAt(all: bytes, a: bytes, b: bytes)
    requires |all| >= |a| + |b|
    requires forall i :: 0 <= i < |a| ==> all[i] == a[i]
    requires forall i :: 0 <= i < |b| ==> all[|a| + i] == b[i]
    ensures all[..|a| + |b|] == a + b
  {
  }

  method StringHeaderBytes(len: nat) returns (hdr: bytes)
    requires len < 0x1_0000_0000
    ensures hdr == StringHeader(len)
  {
    BigEndianBytes(len);
    if len < 32 {
      hdr := [0xa0 + len];
    } else if len <= 0xff {
      hdr := [0xd9, len];
    } else if len <= 0xffff {
      hdr := [0xda] + Low16(len);
    } else {
      hdr := [0xdb] + Low32(len);
    }
  }

  method EncodeBytes(buf: MpBuf, s: bytes)
    requires buf.Valid() && |s| < 0x1_0000_0000
    modifies buf, buf.b
    ensures buf.Valid() && (buf.b == old(buf.b) || fresh(buf.b))
    ensures buf.Contents() == old(buf.Contents()) + (StringHeader(|s|) + s)
  {
    var hdr := StringHeaderBytes(|s|);
    Associative(buf.Contents(), hdr, s);
    buf.Append(hdr);
    buf.Append(s);
  }

  method IntHeaderBytes(n: int) returns (b: bytes)
    requires -0x8000_0000_0000_0000 <= n < 0x8000_0000_0000_0000
    ensures b == IntBytes(n)
  {
    BigEndianBytes(n);
    if n >= 0 {
      if n <= 127 {
        b := [n];
      } else if n <= 0xff {
        b := [0xcc, n % 256];
      } else if n <= 0xffff {
        b := [0xcd] + Low16(n);
      } else if n <= 0xffff_ffff {
        b := [0xce] + Low32(n);
      } else {
        b := [0xcf] + Low64(n);
      }
    } else {
      if n >= -32 {
        b := [n % 256];
      } else if n >= -128 {
        b := [0xd0, n % 256];
      } else if n >= -32768 {
        b := [0xd1] + Low16(n);
      } else if n >= -2147483648 {
        b := [0xd2] + Low32(n);
      } else {
        b := [0xd3] + Low64(n);
      }
    }
  }

  method EncodeInt(buf: MpBuf, n: int)
    requires buf.Valid() && -0x8000_0000_0000_0000 <= n < 0x8000_0000_0000_0000
    modifies buf, buf.b
    ensures buf.Valid() && (buf.b == old(buf.b) || fresh(buf.b))
    ensures buf.Contents() == old(buf.Contents()) + IntBytes(n)
  {
    var b := IntHeaderBytes(n);
    buf.Append(b);
  }

  method EncodeArrayHeader(buf: MpBuf, n: nat)
    requires buf.Valid() && n < 0x1_0000_0000
    modifies buf, buf.b
    ensures buf.Valid() && (buf.b == old(buf.b) || fresh(buf.b))
    ensures buf.Contents() == old(buf.Contents()) + ArrayHeader(n)
  {
    var b: bytes;
    if n <= 15 {
      b := [0x90 + n];
    } else if n <= 65535 {
      b := [0xdc] + Low16(n);
    } else {
      b := [0xdd] + Low32(n);
    }
    buf.Append(b);
  }

  method EncodeMapHeader(buf: MpBuf, n: nat)
    requires buf.Valid() && n < 0x1_0000_0000
    modifies buf, buf.b
    ensures buf.Valid() && (buf.b == old(buf.b) || fresh(buf.b))
    ensures buf.Contents() == old(buf.Contents()) + MapHeader(n)
  {
    var b: bytes;
    if n <= 15 {
      b := [0x80 + n];
    } else if n <= 65535 {
      b := [0xde] + Low16(n);
    } else {
      b := [0xdf] + Low32(n);
    }
    buf.Append(b);
  }

  /** Looks at every key once: stops at the first that is not a positive C int, else compares the largest
      key with the number of keys. */
  method TableIsAnArray(sets: seq<Assign>) returns (yes: bool)
    ensures yes == IsArray(sets)
  {
    var count, max := 0, 0;
    while count < |sets|
      invariant count <= |sets|
      invariant IndexKeys(sets[..count]) && max == MaxKey(sets[..count])
    {
      var key := sets[count].key;
      if !key.Int? || key.n <= 0 || key.n > 0x7fff_ffff {
        assert sets[count] in sets;
        return false;
      }
      assert sets[..count + 1][..count] == sets[..count];
      max := if key.n > max then key.n else max;
      count := count + 1;
    }
    assert sets[..count] == sets;
    return max == count;
  }

  /** The element under a key found at position `p`, or nil when there is none. */
  method EncodeTableElement(buf: MpBuf, t: Lua, p: nat, level: nat)
    requires buf.Valid() && t.Table? && Encodable(t)
    modifies buf, buf.b
    ensures buf.Valid() && (buf.b == old(buf.b) || fresh(buf.b))
    ensures buf.Contents() == old(buf.Contents()) + EncodeElement(t, p, level)
    decreases t, 0
  {
    if p < |t.sets| {
      assert t.sets[p] in t.sets;
      EncodeType(buf, t.sets[p].val, level + 1);
    } else {
      buf.Append([0xc0]);
    }
  }

  method EncodeTableAsArray(buf: MpBuf, t: Lua, level: nat)
    requires buf.Valid() && t.Table? && Encodable(t)
    modifies buf, buf.b
    ensures buf.Valid() && (buf.b == old(buf.b) || fresh(buf.b))
    ensures buf.Contents() ==
      old(buf.Contents()) + (ArrayHeader(|t.sets|) + EncodeElements(t, KeyOrder(t.sets, |t.sets|), 0, level))
    decreases t, 1
  {
    hide EncodeElement;
    var len := |t.sets|;
    ghost var order := KeyOrder(t.sets, |t.sets|);
    ghost var whole := buf.Contents() + (ArrayHeader(len) + EncodeElements(t, order, 0, level));
    Associative(buf.Contents(), ArrayHeader(len), EncodeElements(t, order, 0, level));
    EncodeArrayHeader(buf, len);
    var j := 1;
    while j <= len
      invariant 1 <= j <= len + 1
      invariant buf.Valid() && (buf.b == old(buf.b) || fresh(buf.b))
      invariant buf.Contents() + EncodeElements(t, order, j - 1, level) == whole
    {
      Associative(buf.Contents(), EncodeElement(t, order[j - 1], level), EncodeElements(t, order, j, level));
      var p := IndexOf(t.sets, Int(j));
      EncodeTableElement(buf, t, p, level);
      j := j + 1;
    }
    assert buf.Contents() + [] == buf.Contents();
  }

  method EncodeTablePair(buf: MpBuf, t: Lua, i: nat, level: nat)
    requires buf.Valid() && t.Table? && Encodable(t) && i < |t.sets|
    modifies buf, buf.b
    ensures buf.Valid() && (buf.b == old(buf.b) || fresh(buf.b))
    ensures buf.Contents() == old(buf.Contents()) + EncodePair(t, i, level)
    decreases t, 0
  {
    assert t.sets[i] in t.sets;
    Associative(buf.Contents(), Encode(t.sets[i].key, level + 1), Encode(t.sets[i].val, level + 1));
    EncodeType(buf, t.sets[i].key, level + 1);
    EncodeType(buf, t.sets[i].val, level + 1);
  }

  method EncodeTableAsMap(buf: MpBuf, t: Lua, level: nat)
    requires buf.Valid() && t.Table? && Encodable(t)
    modifies buf, buf.b
    ensures buf.Valid() && (buf.b == old(buf.b) || fresh(buf.b))
    ensures buf.Contents() == old(buf.Contents()) + (MapHeader(|t.sets|) + EncodePairs(t, 0, level))
    decreases t, 1
  {
    var len := 0;
    while len < |t.sets|
      invariant len <= |t.sets|
    {
      len := len + 1;
    }
    ghost var whole := buf.Contents() + (MapHeader(len) + EncodePairs(t, 0, level));
    Associative(buf.Contents(), MapHeader(len), EncodePairs(t, 0, level));
    EncodeMapHeader(buf, len);
    var i := 0;
    while i < |t.sets|
      invariant i <= |t.sets|
      invariant buf.Valid() && (buf.b == old(buf.b) || fresh(buf.b))
      invariant buf.Contents() + EncodePairs(t, i, level) == whole
    {
      Associative(buf.Contents(), EncodePair(t, i, level), EncodePairs(t, i + 1, level));
      EncodeTablePair(buf, t, i, level);
      i := i + 1;
    }
    assert buf.Contents() + [] == buf.Contents();
  }

  method EncodeType(buf: MpBuf, v: Lua, level: nat)
    requires buf.Valid() && Encodable(v)
    modifies buf, buf.b
    ensures buf.Valid() && (buf.b == old(buf.b) || fresh(buf.b))
    ensures buf.Contents() == old(buf.Contents()) + Encode(v, level)
    decreases v, 2
  {
    match v
    case Str(s) => EncodeBytes(buf, s);
    case Bool(b) => buf.Append([if b then 0xc3 else 0xc2]);
    case Int(n) => EncodeInt(buf, n);
    case Double(w) => buf.Append([if |w| == 4 then 0xca else 0xcb] + w);
    case Table(sets) =>
      if level == MAX_NESTING {
        buf.Append([0xc0]);
      } else {
        var yes := TableIsAnArray(sets);
        if yes {
          EncodeTableAsArray(buf, v, level);
        } else {
          EncodeTableAsMap(buf, v, level);
        }
      }
    case _ => buf.Append([0xc0]);
  }
}
