/** The formats of the MessagePack specification by their first bytes: what the decoder makes of each, for every number
    and length that the format holds, and that the encoder takes the shortest. */
module MsgPackFormats {
  import opened Bytes
  import opened LuaValues
  import opened LuaTables
  import opened MsgPack
  import opened MsgPackRoundTrip

  // ---------------------------------------------------------------- first bytes

  /** Objects that are one byte. */
  lemma OneByte(s: bytes)
    requires s != []
    ensures s[0] <= 0x7f ==> ReadHead(s) == Item(Int(s[0]), 1)
    ensures 0xe0 <= s[0] ==> ReadHead(s) == Item(Int(s[0] as int - 256), 1)
    ensures s[0] == 0xc0 ==> ReadHead(s) == Item(Nil, 1)
    ensures s[0] == 0xc2 ==> ReadHead(s) == Item(Bool(false), 1)
    ensures s[0] == 0xc3 ==> ReadHead(s) == Item(Bool(true), 1)
    ensures 0x80 <= s[0] <= 0x8f ==> ReadHead(s) == MapOf(s[0] as int - 0x80, 1)
    ensures 0x90 <= s[0] <= 0x9f ==> ReadHead(s) == ArrayOf(s[0] as int - 0x90, 1)
  {
  }

  /** The first bytes that are refused, whatever follows: the unused one, binary data and extensions. No byte at all is
      missing bytes. */
  lemma RefusedIff(s: bytes)
    ensures ReadHead([]) == Bad(Eof)
    ensures ReadHead(s) == Bad(BadFmt) <==>
      s != [] && (s[0] == 0xc1 || 0xc4 <= s[0] <= 0xc9 || 0xd4 <= s[0] <= 0xd8)
  {
  }

  // ---------------------------------------------------------------- numbers

  predicate SignedTag(c: byte, k: nat) {
    (c == 0xd0 && k == 1) || (c == 0xd1 && k == 2) || (c == 0xd2 && k == 4) || (c == 0xd3 && k == 8)
  }

  /** Every number that fits is read from its signed format, also where a shorter one would do. */
  lemma SignedFormats(c: byte, k: nat, n: int, r: bytes)
    requires SignedTag(c, k) && 0 <= 2 * n + Pow256(k) && 2 * n < Pow256(k)
    ensures ReadHead([c] + BigEndian(n, k) + r) == Item(Int(n), 1 + k)
  {
    hide BigEndian, Signed, Pow256;
    TaggedSigned(c, n, k, r);
  }

  predicate UnsignedTag(c: byte, k: nat) {
    (c == 0xcc && k == 1) || (c == 0xcd && k == 2) || (c == 0xce && k == 4)
  }

  lemma UnsignedFormats(c: byte, k: nat, n: nat, r: bytes)
    requires UnsignedTag(c, k) && n < Pow256(k)
    ensures ReadHead([c] + BigEndian(n, k) + r) == Item(Int(n), 1 + k)
  {
    hide BigEndian, Unsigned, Pow256;
    TaggedUnsigned(c, n, k, r);
  }

  /** A 64-bit unsigned number is read as a signed one: from 2^63 on, 2^64 is taken off. */
  lemma UnsignedFormat64(n: nat, r: bytes)
    requires n < 0x1_0000_0000_0000_0000
    ensures ReadHead([0xcf] + BigEndian(n, 8) + r)
      == Item(Int(if n < 0x8000_0000_0000_0000 then n else n - 0x1_0000_0000_0000_0000), 9)
  {
    hide BigEndian, Unsigned;
    Widths();
    TaggedNumber(0xcf, n, 8, r);
    BigEndianUnsigned(n, 8);
    assert ([0xcf] + BigEndian(n, 8) + r)[1..9] == BigEndian(n, 8);
  }

  /** The bytes of a double are taken as they are. */
  lemma DoubleFormats(c: byte, w: bytes, r: bytes)
    requires (c == 0xca && |w| == 4) || (c == 0xcb && |w| == 8)
    ensures ReadHead([c] + w + r) == Item(Double(w), 1 + |w|)
  {
    assert ([c] + w + r)[1..1 + |w|] == w;
  }

  // ---------------------------------------------------------------- strings, arrays and maps

  predicate StringTag(c: byte, k: nat) {
    (c == 0xd9 && k == 1) || (c == 0xda && k == 2) || (c == 0xdb && k == 4)
  }

  /** A string of any length that the width holds; if bytes of it are missing, that is said. */
  lemma StringFormats(c: byte, k: nat, n: nat, r: bytes)
    requires StringTag(c, k) && n < Pow256(k)
    ensures ReadHead([c] + BigEndian(n, k) + r) ==
      if |r| < n then Bad(Eof) else Item(Str(r[..n]), 1 + k + n)
  {
    hide BigEndian, Unsigned, Pow256;
    TaggedUnsigned(c, n, k, r);
    var s := [c] + BigEndian(n, k) + r;
    assert |r| >= n ==> s[1 + k..1 + k + n] == r[..n];
  }

  lemma ShortStringFormat(n: nat, r: bytes)
    requires n < 32
    ensures ReadHead([0xa0 + n] + r) == if |r| < n then Bad(Eof) else Item(Str(r[..n]), 1 + n)
  {
    assert |r| >= n ==> ([0xa0 + n] + r)[1..1 + n] == r[..n];
  }

  lemma ArrayFormats(c: byte, k: nat, n: nat, r: bytes)
    requires ((c == 0xdc && k == 2) || (c == 0xdd && k == 4)) && n < Pow256(k)
    ensures ReadHead([c] + BigEndian(n, k) + r) == ArrayOf(n, 1 + k)
  {
    hide BigEndian, Unsigned, Pow256;
    TaggedUnsigned(c, n, k, r);
  }

  lemma MapFormats(c: byte, k: nat, n: nat, r: bytes)
    requires ((c == 0xde && k == 2) || (c == 0xdf && k == 4)) && n < Pow256(k)
    ensures ReadHead([c] + BigEndian(n, k) + r) == MapOf(n, 1 + k)
  {
    hide BigEndian, Unsigned, Pow256;
    TaggedUnsigned(c, n, k, r);
  }

  // ---------------------------------------------------------------- the encoder takes the shortest

  lemma {:induction false} UnsignedIsBelow(s: bytes)
    ensures Unsigned(s) < Pow256(|s|)
  {
    if s != [] {
      UnsignedIsBelow(s[..|s| - 1]);
    }
  }

  /** Of all formats that read as an integer, the encoder writes one of the least length. */
  lemma IntIsShortest(s: bytes)
    requires ReadHead(s).Item? && ReadHead(s).v.Int?
    ensures var n := ReadHead(s).v.n;
      -0x8000_0000_0000_0000 <= n < 0x8000_0000_0000_0000 && |IntBytes(n)| <= ReadHead(s).used
  {
    hide BigEndian, Unsigned;
    Widths();
    assert |s| >= 2 ==> |s[1..2]| == 1 && Unsigned(s[1..2]) < 0x100 by { if |s| >= 2 { UnsignedIsBelow(s[1..2]); } }
    assert |s| >= 3 ==> |s[1..3]| == 2 && Unsigned(s[1..3]) < 0x1_0000 by { if |s| >= 3 { UnsignedIsBelow(s[1..3]); } }
    assert |s| >= 5 ==> |s[1..5]| == 4 && Unsigned(s[1..5]) < 0x1_0000_0000 by { if |s| >= 5 { UnsignedIsBelow(s[1..5]); } }
    assert |s| >= 9 ==> |s[1..9]| == 8 && Unsigned(s[1..9]) < 0x1_0000_0000_0000_0000 by {
      if |s| >= 9 { UnsignedIsBelow(s[1..9]); }
    }
  }

  lemma StringIsShortest(s: bytes)
    requires ReadHead(s).Item? && ReadHead(s).v.Str?
    ensures var x := ReadHead(s).v.s;
      |x| < 0x1_0000_0000 && |StringHeader(|x|)| + |x| <= ReadHead(s).used
  {
    hide BigEndian, Unsigned;
    Widths();
    assert |s| >= 2 ==> Unsigned(s[1..2]) < 0x100 by { if |s| >= 2 { UnsignedIsBelow(s[1..2]); } }
    assert |s| >= 3 ==> Unsigned(s[1..3]) < 0x1_0000 by { if |s| >= 3 { UnsignedIsBelow(s[1..3]); } }
    assert |s| >= 5 ==> Unsigned(s[1..5]) < 0x1_0000_0000 by { if |s| >= 5 { UnsignedIsBelow(s[1..5]); } }
  }

  lemma ContainerIsShortest(s: bytes)
    ensures var h := ReadHead(s);
      && (h.ArrayOf? ==> h.len < 0x1_0000_0000 && |ArrayHeader(h.len)| <= h.used)
      && (h.MapOf? ==> h.len < 0x1_0000_0000 && |MapHeader(h.len)| <= h.used)
  {
    hide BigEndian, Unsigned;
    Widths();
    assert |s| >= 3 ==> Unsigned(s[1..3]) < 0x1_0000 by { if |s| >= 3 { UnsignedIsBelow(s[1..3]); } }
    assert |s| >= 5 ==> Unsigned(s[1..5]) < 0x1_0000_0000 by { if |s| >= 5 { UnsignedIsBelow(s[1..5]); } }
  }

  /** What the encoder writes for nil, NULL, booleans and doubles. */
  lemma ConstantFormats(level: nat, w: bytes)
    requires |w| == 4 || |w| == 8
    ensures Encode(Nil, level) == [0xc0] && Encode(Null, level) == [0xc0]
    ensures Encode(Bool(false), level) == [0xc2] && Encode(Bool(true), level) == [0xc3]
    ensures Encode(Double(w), level) == (if |w| == 4 then [0xca] else [0xcb]) + w
  {
  }

  lemma HeadersAreNotNil(n: nat)
    requires n < 0x1_0000_0000
    ensures |ArrayHeader(n)| >= 1 && ArrayHeader(n)[0] != 0xc0 && |MapHeader(n)| >= 1 && MapHeader(n)[0] != 0xc0
  {
    hide BigEndian;
  }

  /** A table sixteen levels deep is written as nil, and one above is not. */
  lemma SixteenLevels(t: Lua, level: nat)
    requires t.Table? && Encodable(t)
    ensures Encode(t, level) == [0xc0] <==> level == 16
  {
    hide ArrayHeader, MapHeader, IsArray, EncodeElements, EncodePairs;
    HeadersAreNotNil(|t.sets|);
    if level != 16 {
      assert Encode(t, level)[0] == if IsArray(t.sets) then ArrayHeader(|t.sets|)[0] else MapHeader(|t.sets|)[0];
    }
  }

  // ---------------------------------------------------------------- keys that are refused

  /** Not-a-number by IEEE 754: without its sign, the bits are above those of infinity. */
  lemma NotANumberIff(w: bytes)
    ensures |w| == 4 ==> (NotANumber(Double(w)) <==> Unsigned(w) % 0x8000_0000 > 0x7f80_0000)
    ensures |w| == 8 ==> (NotANumber(Double(w)) <==> Unsigned(w) % 0x8000_0000_0000_0000 > 0x7ff0_0000_0000_0000)
  {
    hide Unsigned;
    if |w| == 4 {
      UnsignedTwo(w);
      Powers();
      var low := Unsigned(w[1..]);
      assert Unsigned(w) == w[0] as int * 0x100_0000 + low && 0 <= low < 0x100_0000;
      SignOff4(w[0], low);
    } else if |w| == 8 {
      UnsignedTwo(w);
      Powers();
      var low := Unsigned(w[1..]);
      assert Unsigned(w) == w[0] as int * 0x100_0000_0000_0000 + low && 0 <= low < 0x100_0000_0000_0000;
      SignOff8(w[0], low);
    }
  }

  lemma Powers()
    ensures Pow256(2) == 0x1_0000 && Pow256(3) == 0x100_0000
    ensures Pow256(6) == 0x1_0000_0000_0000 && Pow256(7) == 0x100_0000_0000_0000
  {
    Widths();
    assert Pow256(3) == 256 * Pow256(2);
    assert Pow256(5) == 256 * Pow256(4);
    assert Pow256(6) == 256 * Pow256(5);
    assert Pow256(7) == 256 * Pow256(6);
  }

  lemma SignOff4(b: byte, low: nat)
    requires low < 0x100_0000
    ensures (b as int * 0x100_0000 + low) % 0x8000_0000 == b as int % 128 * 0x100_0000 + low
  {
    var q, r := b as int / 128, b as int % 128;
    assert b as int * 0x100_0000 + low == q * 0x8000_0000 + (r * 0x100_0000 + low);
  }

  lemma SignOff8(b: byte, low: nat)
    requires low < 0x100_0000_0000_0000
    ensures (b as int * 0x100_0000_0000_0000 + low) % 0x8000_0000_0000_0000 == b as int % 128 * 0x100_0000_0000_0000 + low
  {
    var q, r := b as int / 128, b as int % 128;
    assert b as int * 0x100_0000_0000_0000 + low == q * 0x8000_0000_0000_0000 + (r * 0x100_0000_0000_0000 + low);
  }

  /** A pair is refused exactly for a nil key and for a key that is not a number, once key and value have been read. */
  lemma KeyRefusedIff(s: bytes)
    requires Decode(s).Ok? && Decode(s[Decode(s).used..]).Ok?
    ensures DecodePair(s) == SetsFail(BadKey) <==> Decode(s).v == Nil || NotANumber(Decode(s).v)
  {
    hide Decode;
  }

  // ---------------------------------------------------------------- the form of a table

  /** A table above level 16 is written as an array exactly when its keys are 1 to N, and as a map of its entries
      otherwise; either with their number. */
  lemma TableForms(t: Lua, level: nat, r: bytes)
    requires t.Table? && DistinctKeys(t.sets) && Encodable(t) && level != 16
    ensures var h := ReadHead(Encode(t, level) + r);
      && (h.ArrayOf? || h.MapOf?) && h.len == |t.sets|
      && (h.ArrayOf? <==> |t.sets| <= 0x7fff_ffff && forall k :: HasKey(t.sets, k) <==> k.Int? && 1 <= k.n <= |t.sets|)
  {
    hide ReadHead, ArrayHeader, MapHeader, IsArray, EncodeElements, EncodePairs, HasKey, DistinctKeys;
    ArrayTestIsPigeonhole(t.sets);
    var n := |t.sets|;
    if IsArray(t.sets) {
      var body := EncodeElements(t, KeyOrder(t.sets, n), 0, level);
      Associative(ArrayHeader(n), body, r);
      ArrayHead(n, body + r);
    } else {
      var body := EncodePairs(t, 0, level);
      Associative(MapHeader(n), body, r);
      MapHead(n, body + r);
    }
  }
}
