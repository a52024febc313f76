/** Decoding undoes encoding, for every Lua value, up to exactly what the encoder drops. */
module MsgPackRoundTrip {
  import opened Bytes
  import opened LuaValues
  import opened LuaTables
  import opened MsgPack

  // ---------------------------------------------------------------- headers

  /** A tag byte, a big-endian number and what follows. */
  lemma TaggedNumber(t: byte, n: int, k: nat, rest: bytes)
    ensures var s := [t] + BigEndian(n, k) + rest;
      && |s| == 1 + k + |rest| && s[0] == t && s[1..k + 1] == BigEndian(n, k) && s[k + 1..] == rest
  {
  }

  lemma TaggedUnsigned(t: byte, n: nat, k: nat, rest: bytes)
    requires n < Pow256(k)
    ensures var s := [t] + BigEndian(n, k) + rest;
      && |s| == 1 + k + |rest| && s[0] == t && Unsigned(s[1..k + 1]) == n && s[k + 1..] == rest
  {
    TaggedNumber(t, n, k, rest);
    BigEndianUnsigned(n, k);
  }

  lemma TaggedSigned(t: byte, n: int, k: nat, rest: bytes)
    requires 0 <= 2 * n + Pow256(k) && 2 * n < Pow256(k)
    ensures var s := [t] + BigEndian(n, k) + rest;
      && |s| == 1 + k + |rest| && s[0] == t && Signed(s[1..k + 1]) == n
  {
    TaggedNumber(t, n, k, rest);
    BigEndianSigned(n, k);
  }

  lemma IntHead(n: int, r: bytes)
    requires -0x8000_0000_0000_0000 <= n < 0x8000_0000_0000_0000
    ensures ReadHead(IntBytes(n) + r) == Item(Int(n), |IntBytes(n)|)
  {
    Widths();
    if -32 <= n <= 127 {
    } else if 0 <= n <= 0xff { TaggedUnsigned(0xcc, n, 1, r);
    } else if 0 <= n <= 0xffff { TaggedUnsigned(0xcd, n, 2, r);
    } else if 0 <= n <= 0xffff_ffff { TaggedUnsigned(0xce, n, 4, r);
    } else if 0 <= n { TaggedSigned(0xcf, n, 8, r);
    } else if -128 <= n { TaggedSigned(0xd0, n, 1, r);
    } else if -32768 <= n { TaggedSigned(0xd1, n, 2, r);
    } else if -2147483648 <= n { TaggedSigned(0xd2, n, 4, r);
    } else { TaggedSigned(0xd3, n, 8, r); }
  }

  lemma ShortStringHead(x: bytes, r: bytes)
    requires |x| < 32
    ensures ReadHead([0xa0 + |x|] + (x + r)) == Item(Str(x), 1 + |x|)
  {
    assert ([0xa0 + |x|] + (x + r))[1..1 + |x|] == x;
  }

  lemma LongStringHead(t: byte, k: nat, x: bytes, r: bytes)
    requires (t == 0xd9 && k == 1 && |x| < 0x100) || (t == 0xda && k == 2 && |x| < 0x1_0000)
          || (t == 0xdb && k == 4 && |x| < 0x1_0000_0000)
    ensures var h := [t] + BigEndian(|x|, k);
      |h| == 1 + k && ReadHead(h + (x + r)) == Item(Str(x), |h| + |x|)
  {
    hide BigEndian, Unsigned;
    Widths();
    var h := [t] + BigEndian(|x|, k);
    TaggedUnsigned(t, |x|, k, x + r);
    assert (h + (x + r))[1 + k..1 + k + |x|] == x;
  }

  lemma StringHead(x: bytes, r: bytes)
    requires |x| < 0x1_0000_0000
    ensures ReadHead(StringHeader(|x|) + (x + r)) == Item(Str(x), |StringHeader(|x|)| + |x|)
  {
    hide ReadHead, BigEndian;
    var n := |x|;
    if n < 32 { ShortStringHead(x, r);
    } else if n <= 0xff { LongStringHead(0xd9, 1, x, r);
    } else if n <= 0xffff { LongStringHead(0xda, 2, x, r);
    } else { LongStringHead(0xdb, 4, x, r); }
  }

  lemma ArrayHead(n: nat, r: bytes)
    requires n < 0x1_0000_0000
    ensures ReadHead(ArrayHeader(n) + r) == ArrayOf(n, |ArrayHeader(n)|)
  {
    Widths();
    if n <= 15 {
    } else if n <= 0xffff { TaggedUnsigned(0xdc, n, 2, r);
    } else { TaggedUnsigned(0xdd, n, 4, r); }
  }

  lemma MapHead(n: nat, r: bytes)
    requires n < 0x1_0000_0000
    ensures ReadHead(MapHeader(n) + r) == MapOf(n, |MapHeader(n)|)
  {
    Widths();
    if n <= 15 {
    } else if n <= 0xffff { TaggedUnsigned(0xde, n, 2, r);
    } else { TaggedUnsigned(0xdf, n, 4, r); }
  }

  // ---------------------------------------------------------------- what comes back

  /** The assignments the decoder makes for an encoded value. */
  function Image(v: Lua, level: nat): Lua
    decreases v
  {
    match v
    case Null => Nil
    case Table(sets) =>
      if level == MAX_NESTING then Nil
      else if IsArray(sets) then Table(ImageElements(v, KeyOrder(sets, |sets|), 0, level))
      else Table(ImagePairs(v, 0, level))
    case _ => v
  }

  function ImageElement(t: Lua, p: nat, level: nat): Lua
    requires t.Table?
    decreases t, 0
  {
    if p >= |t.sets| then Nil else Image(t.sets[p].val, level + 1)
  }

  function ImageElements(t: Lua, order: seq<nat>, j: nat, level: nat): (r: seq<Assign>)
    requires t.Table? && j <= |order|
    ensures |r| == |order| - j
    decreases t, 1, |order| - j
  {
    if j == |order| then [] else
      [Assign(Int(j + 1), ImageElement(t, order[j], level))] + ImageElements(t, order, j + 1, level)
  }

  function ImagePairs(t: Lua, i: nat, level: nat): (r: seq<Assign>)
    requires t.Table? && i <= |t.sets|
    ensures |r| == |t.sets| - i
    decreases t, 1, |t.sets| - i
  {
    if i == |t.sets| then [] else
      [Assign(t.sets[i].key, Image(t.sets[i].val, level + 1))] + ImagePairs(t, i + 1, level)
  }

  // ---------------------------------------------------------------- NULL as a key

  /** A table that is written has NULL for a key, which is written as nil. */
  function NullKey(v: Lua, level: nat): bool
    decreases v
  {
    v.Table? && level != MAX_NESTING &&
    if IsArray(v.sets) then NullInElements(v, KeyOrder(v.sets, |v.sets|), 0, level) else NullInPairs(v, 0, level)
  }

  function NullInElement(t: Lua, p: nat, level: nat): bool
    requires t.Table?
    decreases t, 0
  {
    p < |t.sets| && NullKey(t.sets[p].val, level + 1)
  }

  function NullInElements(t: Lua, order: seq<nat>, j: nat, level: nat): bool
    requires t.Table? && j <= |order|
    decreases t, 1, |order| - j
  {
    j < |order| && (NullInElement(t, order[j], level) || NullInElements(t, order, j + 1, level))
  }

  function NullInPairs(t: Lua, i: nat, level: nat): bool
    requires t.Table? && i <= |t.sets|
    decreases t, 1, |t.sets| - i
  {
    i < |t.sets| && (t.sets[i].key == Null || NullKey(t.sets[i].val, level + 1) || NullInPairs(t, i + 1, level))
  }

  lemma {:induction false} NullInElementsIff(t: Lua, order: seq<nat>, j: nat, level: nat)
    requires t.Table? && j <= |order|
    ensures NullInElements(t, order, j, level) <==> exists k :: j <= k < |order| && NullInElement(t, order[k], level)
    decreases |order| - j
  {
    hide NullInElement;
    if j < |order| {
      NullInElementsIff(t, order, j + 1, level);
    }
  }

  lemma {:induction false} NullInPairsIff(t: Lua, i: nat, level: nat)
    requires t.Table? && i <= |t.sets|
    ensures NullInPairs(t, i, level) <==>
      exists k :: i <= k < |t.sets| && (t.sets[k].key == Null || NullKey(t.sets[k].val, level + 1))
    decreases |t.sets| - i
  {
    hide NullKey;
    if i < |t.sets| {
      NullInPairsIff(t, i + 1, level);
    }
  }

  /** Whichever form a table is written in, it is about its own keys and those of the tables in it, above level 16. */
  lemma NullKeyIff(t: Lua, level: nat)
    requires t.Table? && DistinctKeys(t.sets)
    ensures NullKey(t, level) <==>
      level != MAX_NESTING && exists e :: e in t.sets && (e.key == Null || NullKey(e.val, level + 1))
  {
    hide IsArray, NullInElements, NullInPairs;
    var order := KeyOrder(t.sets, |t.sets|);
    if !IsArray(t.sets) {
      NullInPairsIff(t, 0, level);
    } else {
      NullInElementsIff(t, order, 0, level);
      if k :| 0 <= k < |order| && NullInElement(t, order[k], level) {
        assert t.sets[order[k]] in t.sets;
      }
      forall e | e in t.sets
        ensures e.key.Int? && 1 <= e.key.n <= |order|
        ensures NullInElement(t, order[e.key.n - 1], level) == NullKey(e.val, level + 1)
      {
        ElementIsThere(t, e);
      }
    }
  }

  /** Every entry of an array is an element of it. */
  lemma ElementIsThere(t: Lua, e: Assign)
    requires t.Table? && DistinctKeys(t.sets) && IsArray(t.sets) && e in t.sets
    ensures e.key.Int? && 1 <= e.key.n <= |t.sets|
    ensures var p := KeyOrder(t.sets, |t.sets|)[e.key.n - 1]; p < |t.sets| && t.sets[p] == e
  {
    ArrayKeyInRange(t.sets, e);
    KeyOrderFinds(t.sets, e.key.n - 1);
  }

  lemma {:induction false} NoNullKey(v: Lua, level: nat)
    requires WellFormed(v)
    ensures !NullKey(v, level)
    decreases v
  {
    if v.Table? {
      NullKeyIff(v, level);
      forall e | e in v.sets ensures e.key != Null && !NullKey(e.val, level + 1) {
        NoNullKey(e.val, level + 1);
      }
    }
  }

  // ---------------------------------------------------------------- decoding what was encoded

  /** What reading an encoded value, or the entries of a table, results in. */
  function Back(bad: bool, v: Lua, used: nat): Decoded {
    if bad then Fail(BadKey) else Ok(v, used)
  }

  function SetsBack(bad: bool, sets: seq<Assign>, used: nat): DecodedSets {
    if bad then SetsFail(BadKey) else SetsOk(sets, used)
  }

  /** Decoding an encoded value, with NULL keys or without: it makes the assignments of the image, unless a NULL key was
      written. */
  lemma {:induction false} DecodeStorable(v: Lua, level: nat, r: bytes)
    requires Storable(v) && Encodable(v)
    ensures Decode(Encode(v, level) + r) == Back(NullKey(v, level), Image(v, level), |Encode(v, level)|)
    decreases v
  {
    if v.Table? && level != MAX_NESTING {
      if IsArray(v.sets) {
        DecodeArrayForm(v, level, r);
      } else {
        DecodeMapForm(v, level, r);
      }
    } else {
      DecodeScalar(v, level, r);
    }
  }

  /** An object that is read whole by its head. */
  lemma DecodeItem(s: bytes, v: Lua, n: nat)
    requires ReadHead(s) == Item(v, n)
    ensures Decode(s) == Ok(v, n)
  {
    hide ReadHead;
  }

  lemma DoubleHead(w: bytes, r: bytes)
    requires |w| == 4 || |w| == 8
    ensures ReadHead([if |w| == 4 then 0xca else 0xcb] + w + r) == Item(Double(w), 1 + |w|)
  {
    assert ([if |w| == 4 then 0xca else 0xcb] + w + r)[1..1 + |w|] == w;
  }

  lemma ConstantHead(r: bytes)
    ensures ReadHead([0xc0] + r) == Item(Nil, 1)
    ensures ReadHead([0xc3] + r) == Item(Bool(true), 1) && ReadHead([0xc2] + r) == Item(Bool(false), 1)
  {
  }

  lemma ScalarHead(v: Lua, level: nat, r: bytes)
    requires WellFormed(v) || v.Table?
    requires Encodable(v) && (v.Table? ==> level == MAX_NESTING)
    ensures ReadHead(Encode(v, level) + r) == Item(Image(v, level), |Encode(v, level)|)
  {
    hide ReadHead, IntBytes, StringHeader;
    match v
    case Int(n) => IntHead(n, r);
    case Str(x) =>
      StringHead(x, r);
      Associative(StringHeader(|x|), x, r);
    case Double(w) => DoubleHead(w, r);
    case _ => ConstantHead(r);
  }

  lemma DecodeScalar(v: Lua, level: nat, r: bytes)
    requires WellFormed(v) || v.Table?
    requires Encodable(v) && (v.Table? ==> level == MAX_NESTING)
    ensures Decode(Encode(v, level) + r) == Ok(Image(v, level), |Encode(v, level)|)
  {
    hide ReadHead, Encode, Image, Decode;
    ScalarHead(v, level, r);
    DecodeItem(Encode(v, level) + r, Image(v, level), |Encode(v, level)|);
  }

  /** A header, and then the entries. */
  lemma ArrayStep(h: bytes, b: bytes, r: bytes, len: nat, d: DecodedSets)
    requires ReadHead(h + (b + r)) == ArrayOf(len, |h|) && DecodeElements(b + r, 1, len) == d
    ensures Decode(h + b + r) == if d.SetsFail? then Fail(d.e) else Ok(Table(d.sets), |h| + d.used)
  {
    hide ReadHead, DecodeElements;
    Associative(h, b, r);
    assert (h + (b + r))[|h|..] == b + r;
  }

  lemma MapStep(h: bytes, b: bytes, r: bytes, len: nat, d: DecodedSets)
    requires ReadHead(h + (b + r)) == MapOf(len, |h|) && DecodePairs(b + r, len) == d
    ensures Decode(h + b + r) == if d.SetsFail? then Fail(d.e) else Ok(Table(d.sets), |h| + d.used)
  {
    hide ReadHead, DecodePairs;
    Associative(h, b, r);
    assert (h + (b + r))[|h|..] == b + r;
  }

  lemma {:induction false} DecodeArrayForm(t: Lua, level: nat, r: bytes)
    requires t.Table? && Storable(t) && Encodable(t)
    ensures var order := KeyOrder(t.sets, |t.sets|);
      var e := ArrayHeader(|t.sets|) + EncodeElements(t, order, 0, level);
      Decode(e + r) == Back(NullInElements(t, order, 0, level), Table(ImageElements(t, order, 0, level)), |e|)
    decreases t, 2
  {
    hide Decode, ReadHead, DecodeElements, ArrayHeader, EncodeElements, ImageElements, NullInElements, KeyOrder;
    var order := KeyOrder(t.sets, |t.sets|);
    var h, b := ArrayHeader(|t.sets|), EncodeElements(t, order, 0, level);
    ArrayHead(|t.sets|, b + r);
    DecodeEncodeElements(t, order, 0, level, r);
    ArrayStep(h, b, r, |t.sets|, DecodeElements(b + r, 1, |t.sets|));
  }

  lemma {:induction false} DecodeMapForm(t: Lua, level: nat, r: bytes)
    requires t.Table? && Storable(t) && Encodable(t)
    ensures var e := MapHeader(|t.sets|) + EncodePairs(t, 0, level);
      Decode(e + r) == Back(NullInPairs(t, 0, level), Table(ImagePairs(t, 0, level)), |e|)
    decreases t, 2
  {
    hide Decode, ReadHead, DecodePairs, MapHeader, EncodePairs, ImagePairs, NullInPairs;
    var h, b := MapHeader(|t.sets|), EncodePairs(t, 0, level);
    MapHead(|t.sets|, b + r);
    DecodeEncodePairs(t, 0, level, r);
    MapStep(h, b, r, |t.sets|, DecodePairs(b + r, |t.sets|));
  }

  lemma ElementStep(first: bytes, badFirst: bool, v: Lua, rest: bytes, r: bytes, index: nat, len: nat, bad: bool,
                    sets: seq<Assign>)
    requires len > 0 && Decode(first + (rest + r)) == Back(badFirst, v, |first|)
    requires DecodeElements(rest + r, index + 1, len - 1) == SetsBack(bad, sets, |rest|)
    ensures DecodeElements(first + rest + r, index, len)
      == SetsBack(badFirst || bad, [Assign(Int(index), v)] + sets, |first + rest|)
  {
    hide Decode;
    Associative(first, rest, r);
    assert (first + (rest + r))[|first|..] == rest + r;
  }

  lemma PairStep(k: bytes, key: Lua, x: bytes, badVal: bool, val: Lua, rest: bytes)
    requires Decode(k + (x + rest)) == Ok(key, |k|)
    requires Decode(x + rest) == Back(badVal, val, |x|)
    requires !NotANumber(key)
    ensures DecodePair(k + x + rest) == SetsBack(key == Nil || badVal, [Assign(key, val)], |k| + |x|)
  {
    hide Decode;
    Associative(k, x, rest);
    assert (k + (x + rest))[|k|..] == x + rest;
  }

  lemma PairsStep(first: bytes, badFirst: bool, e: Assign, rest: bytes, r: bytes, len: nat, bad: bool, sets: seq<Assign>)
    requires len > 0 && DecodePair(first + (rest + r)) == SetsBack(badFirst, [e], |first|)
    requires DecodePairs(rest + r, len - 1) == SetsBack(bad, sets, |rest|)
    ensures DecodePairs(first + rest + r, len) == SetsBack(badFirst || bad, [e] + sets, |first + rest|)
  {
    hide DecodePair;
    Associative(first, rest, r);
    assert (first + (rest + r))[|first|..] == rest + r;
  }

  lemma {:induction false} DecodeEncodeElement(t: Lua, p: nat, level: nat, r: bytes)
    requires t.Table? && Storable(t) && Encodable(t)
    ensures Decode(EncodeElement(t, p, level) + r)
      == Back(NullInElement(t, p, level), ImageElement(t, p, level), |EncodeElement(t, p, level)|)
    decreases t, 0
  {
    if p < |t.sets| {
      hide Decode, ReadHead, Encode, Image, NullKey;
      assert t.sets[p] in t.sets;
      DecodeStorable(t.sets[p].val, level + 1, r);
    }
  }

  lemma {:induction false} DecodeEncodeElements(t: Lua, order: seq<nat>, j: nat, level: nat, r: bytes)
    requires t.Table? && Storable(t) && Encodable(t) && j <= |order|
    ensures DecodeElements(EncodeElements(t, order, j, level) + r, j + 1, |order| - j)
      == SetsBack(NullInElements(t, order, j, level), ImageElements(t, order, j, level),
                  |EncodeElements(t, order, j, level)|)
    decreases t, 1, |order| - j
  {
    hide Decode, EncodeElement, ImageElement, NullInElement;
    if j < |order| {
      var first, rest := EncodeElement(t, order[j], level), EncodeElements(t, order, j + 1, level);
      DecodeEncodeElement(t, order[j], level, rest + r);
      DecodeEncodeElements(t, order, j + 1, level, r);
      ElementStep(first, NullInElement(t, order[j], level), ImageElement(t, order[j], level), rest, r, j + 1, |order| - j,
                  NullInElements(t, order, j + 1, level), ImageElements(t, order, j + 1, level));
    }
  }

  /** A key is read back as it is, but NULL as nil. */
  lemma DecodeKey(key: Lua, level: nat, r: bytes)
    requires (key == Null || Scalar(key)) && WellFormed(key) && Encodable(key)
    ensures Decode(Encode(key, level) + r) == Ok(if key == Null then Nil else key, |Encode(key, level)|)
  {
    hide Decode, ReadHead;
    DecodeScalar(key, level, r);
  }

  lemma {:induction false} DecodeEncodePair(t: Lua, i: nat, level: nat, r: bytes)
    requires t.Table? && Storable(t) && Encodable(t) && i < |t.sets|
    ensures DecodePair(EncodePair(t, i, level) + r)
      == SetsBack(t.sets[i].key == Null || NullKey(t.sets[i].val, level + 1),
                  [Assign(t.sets[i].key, Image(t.sets[i].val, level + 1))], |EncodePair(t, i, level)|)
    decreases t, 0
  {
    hide Decode, DecodePair, ReadHead, Encode, Image, NullKey;
    assert t.sets[i] in t.sets;
    var key, val := t.sets[i].key, t.sets[i].val;
    var k, x := Encode(key, level + 1), Encode(val, level + 1);
    DecodeKey(key, level + 1, x + r);
    DecodeStorable(val, level + 1, r);
    PairStep(k, if key == Null then Nil else key, x, NullKey(val, level + 1), Image(val, level + 1), r);
  }

  lemma {:induction false} DecodeEncodePairs(t: Lua, i: nat, level: nat, r: bytes)
    requires t.Table? && Storable(t) && Encodable(t) && i <= |t.sets|
    ensures DecodePairs(EncodePairs(t, i, level) + r, |t.sets| - i)
      == SetsBack(NullInPairs(t, i, level), ImagePairs(t, i, level), |EncodePairs(t, i, level)|)
    decreases t, 1, |t.sets| - i
  {
    hide Decode, DecodePair, EncodePair, Image, NullKey;
    if i < |t.sets| {
      var first, rest := EncodePair(t, i, level), EncodePairs(t, i + 1, level);
      var key, val := t.sets[i].key, t.sets[i].val;
      DecodeEncodePair(t, i, level, rest + r);
      DecodeEncodePairs(t, i + 1, level, r);
      PairsStep(first, key == Null || NullKey(val, level + 1), Assign(key, Image(val, level + 1)), rest, r,
                |t.sets| - i, NullInPairs(t, i + 1, level), ImagePairs(t, i + 1, level));
    }
  }

  lemma DecodeEncode(v: Lua, level: nat, r: bytes)
    requires WellFormed(v) && Encodable(v)
    ensures Decode(Encode(v, level) + r) == Ok(Image(v, level), |Encode(v, level)|)
  {
    WellFormedIsStorable(v);
    NoNullKey(v, level);
    DecodeStorable(v, level, r);
  }

  // ---------------------------------------------------------------- in terms of maps

  /** What the encoder drops: NULL userdata, and tables nested deeper than the limit. They are gone from the
      table that held them. */
  ghost function Pruned(x: Value, level: nat): Value
    decreases x
  {
    match x
    case VNull => VNil
    case VTable(m) =>
      if level == MAX_NESTING then VNil else
        VTable(map k | k in m && Pruned(m[k], level + 1) != VNil :: Pruned(m[k], level + 1))
    case _ => x
  }

  /** No NULL userdata, and no table below level 16. */
  ghost predicate Survives(x: Value, level: nat)
    decreases x
  {
    match x
    case VNull => false
    case VTable(m) => level < MAX_NESTING && forall k :: k in m ==> Survives(m[k], level + 1)
    case _ => true
  }

  ghost predicate NoNilInside(x: Value) {
    x.VTable? ==> forall k :: k in x.m ==> x.m[k] != VNil && NoNilInside(x.m[k])
  }

  lemma {:induction false} PrunedIsIdentityIff(x: Value, level: nat)
    requires NoNilInside(x) && level <= MAX_NESTING
    ensures Pruned(x, level) == x <==> Survives(x, level)
    decreases x
  {
    if x.VTable? && level < MAX_NESTING {
      forall k | k in x.m
        ensures Pruned(x.m[k], level + 1) == x.m[k] <==> Survives(x.m[k], level + 1)
      {
        PrunedIsIdentityIff(x.m[k], level + 1);
      }
      var p := Pruned(x, level).m;
      if Survives(x, level) {
        assert p == x.m;
      }
      if p == x.m {
        forall k | k in x.m
          ensures Survives(x.m[k], level + 1)
        {
          assert k in p;
        }
      }
    }
  }

  lemma {:induction false} MeaningHasNoNil(v: Lua)
    requires WellFormed(v)
    ensures NoNilInside(Meaning(v))
  {
    if v.Table? {
      var m := Contents(v, |v.sets|);
      forall x | x in m
        ensures m[x] != VNil && NoNilInside(m[x])
      {
        var i := ContentsComesFrom(v, |v.sets|, x);
        MeaningNil(v.sets[i].val);
        MeaningHasNoNil(v.sets[i].val);
      }
    }
  }

  /** What becomes of a value in a table at the given level. */
  function Below(level: nat): Lua -> Lua {
    v => Image(v, level + 1)
  }

  lemma {:induction false} ImageElementsAt(t: Lua, order: seq<nat>, j: nat, level: nat, k: nat)
    requires t.Table? && j <= k < |order|
    ensures ImageElements(t, order, j, level)[k - j] == Assign(Int(k + 1), ImageElement(t, order[k], level))
    decreases k - j
  {
    if j < k {
      ImageElementsAt(t, order, j + 1, level, k);
    }
  }

  lemma {:induction false} ImagePairsAt(t: Lua, i: nat, level: nat, k: nat)
    requires t.Table? && i <= k < |t.sets|
    ensures ImagePairs(t, i, level)[k - i] == Assign(t.sets[k].key, Image(t.sets[k].val, level + 1))
    decreases k - i
  {
    if i < k {
      ImagePairsAt(t, i + 1, level, k);
    }
  }

  lemma ImageElementFor(t: Lua, level: nat, e: Assign)
    requires t.Table? && DistinctKeys(t.sets) && IsArray(t.sets) && e in t.sets
    ensures Assign(e.key, Image(e.val, level + 1)) in ImageElements(t, KeyOrder(t.sets, |t.sets|), 0, level)
  {
    ArrayKeyInRange(t.sets, e);
    var k, order := e.key.n - 1, KeyOrder(t.sets, |t.sets|);
    KeyOrderFinds(t.sets, k);
    assert t.sets[order[k]] == e;
    ImageElementsAt(t, order, 0, level, k);
  }

  /** An element of the image comes from an entry. */
  lemma ElementAt(t: Lua, level: nat, k: nat) returns (e: Assign)
    requires t.Table? && DistinctKeys(t.sets) && IsArray(t.sets) && k < |t.sets|
    ensures e in t.sets && e.key == Int(k + 1)
    ensures ImageElements(t, KeyOrder(t.sets, |t.sets|), 0, level)[k] == Assign(e.key, Below(level)(e.val))
  {
    hide Image, IsArray;
    KeyOrderFinds(t.sets, k);
    ImageElementsAt(t, KeyOrder(t.sets, |t.sets|), 0, level, k);
    e := t.sets[KeyOrder(t.sets, |t.sets|)[k]];
  }

  lemma NumberedKeysAreDistinct(u: seq<Assign>)
    requires forall k :: 0 <= k < |u| ==> u[k].key == Int(k + 1)
    ensures DistinctKeys(u)
  {
  }

  lemma ImageElementsIsImage(t: Lua, level: nat)
    requires t.Table? && DistinctKeys(t.sets) && IsArray(t.sets)
    ensures Reassigned(t, Table(ImageElements(t, KeyOrder(t.sets, |t.sets|), 0, level)), Below(level))
  {
    hide Image, IsArray, ImageElements, KeyOrder, DistinctKeys;
    var u := ImageElements(t, KeyOrder(t.sets, |t.sets|), 0, level);
    forall k | 0 <= k < |u|
      ensures u[k].key == Int(k + 1)
      ensures exists e :: e in t.sets && u[k] == Assign(e.key, Below(level)(e.val))
    {
      var e := ElementAt(t, level, k);
    }
    NumberedKeysAreDistinct(u);
    forall e | e in t.sets
      ensures Assign(e.key, Below(level)(e.val)) in u
    {
      ImageElementFor(t, level, e);
    }
  }

  lemma ImagePairsIsImage(t: Lua, level: nat)
    requires t.Table? && DistinctKeys(t.sets)
    ensures Reassigned(t, Table(ImagePairs(t, 0, level)), Below(level))
  {
    hide Image;
    var u := ImagePairs(t, 0, level);
    forall k | 0 <= k < |u|
      ensures t.sets[k] in t.sets && u[k] == Assign(t.sets[k].key, Below(level)(t.sets[k].val))
    {
      ImagePairsAt(t, 0, level, k);
    }
    forall e | e in t.sets
      ensures Assign(e.key, Below(level)(e.val)) in u
    {
      var k :| 0 <= k < |t.sets| && t.sets[k] == e;
      assert u[k] in u;
    }
  }

  /** Reading the image of a table as a map gives the pruned map. */
  lemma {:induction false} MeaningOfImageTable(t: Lua, u: Lua, level: nat)
    requires Keyed(t) && u.Table? && Reassigned(t, u, Below(level))
    requires level != MAX_NESTING
    requires forall e :: e in t.sets ==>
      e.val != Nil && Meaning(Image(e.val, level + 1)) == Pruned(Meaning(e.val), level + 1)
    ensures Meaning(u) == Pruned(Meaning(t), level)
  {
    hide Image, Reassigned;
    var n := |t.sets|;
    var mt, mu, mp := Contents(t, n), Contents(u, |u.sets|), Pruned(Meaning(t), level).m;
    forall x | x in mp
      ensures x in mu && mu[x] == mp[x]
    {
      var i := ContentsComesFrom(t, n, x);
      MeaningNil(Image(t.sets[i].val, level + 1));
      ReassignedHas(t, u, Below(level), t.sets[i]);
    }
    forall x | x in mu
      ensures x in mp
    {
      var e := ReassignedComesFrom(t, u, Below(level), x);
      MeaningNil(Image(e.val, level + 1));
      ReassignedHas(t, u, Below(level), e);
    }
    assert mu == mp;
  }

  lemma {:induction false} MeaningOfImage(v: Lua, level: nat)
    requires WellFormed(v)
    ensures Meaning(Image(v, level)) == Pruned(Meaning(v), level)
    decreases v
  {
    if v.Table? && level != MAX_NESTING {
      forall e | e in v.sets
        ensures e.val != Nil && Meaning(Image(e.val, level + 1)) == Pruned(Meaning(e.val), level + 1)
      {
        MeaningOfImage(e.val, level + 1);
      }
      if IsArray(v.sets) {
        ImageElementsIsImage(v, level);
      } else {
        ImagePairsIsImage(v, level);
      }
      MeaningOfImageTable(v, Image(v, level), level);
    }
  }

  // ---------------------------------------------------------------- main results

  /** For every value and every following bytes: decoding gives the value without what the encoder drops,
      and leaves exactly the following bytes. Nothing is lost exactly when no table is nested deeper than
      16 and there is no NULL userdata. */
  lemma RoundTrip(v: Lua, r: bytes)
    requires WellFormed(v) && Encodable(v)
    ensures var d := Decode(Encode(v, 0) + r);
      && d.Ok?
      && d.used == |Encode(v, 0)|
      && Meaning(d.v) == Pruned(Meaning(v), 0)
      && (Meaning(d.v) == Meaning(v) <==> Survives(Meaning(v), 0))
  {
    DecodeEncode(v, 0, r);
    MeaningOfImage(v, 0);
    MeaningHasNoNil(v);
    PrunedIsIdentityIff(Meaning(v), 0);
  }

  /** A table with keys 1..N decodes to the same map from its array form and from its map form. */
  lemma ArrayAndMapFormsAgree(t: Lua, level: nat, r: bytes)
    requires t.Table? && WellFormed(t) && Encodable(t) && IsArray(t.sets) && level != MAX_NESTING
    ensures var a := Decode(ArrayHeader(|t.sets|) + EncodeElements(t, KeyOrder(t.sets, |t.sets|), 0, level) + r);
      var m := Decode(MapHeader(|t.sets|) + EncodePairs(t, 0, level) + r);
      a.Ok? && m.Ok? && Meaning(a.v) == Meaning(m.v) == Pruned(Meaning(t), level)
  {
    FormsAreRead(t, level, r);
    forall e | e in t.sets
      ensures e.val != Nil && Meaning(Image(e.val, level + 1)) == Pruned(Meaning(e.val), level + 1)
    {
      MeaningOfImage(e.val, level + 1);
    }
    ImageElementsIsImage(t, level);
    ImagePairsIsImage(t, level);
    MeaningOfImageTable(t, Table(ImageElements(t, KeyOrder(t.sets, |t.sets|), 0, level)), level);
    MeaningOfImageTable(t, Table(ImagePairs(t, 0, level)), level);
  }

  lemma FormsAreRead(t: Lua, level: nat, r: bytes)
    requires t.Table? && WellFormed(t) && Encodable(t) && IsArray(t.sets) && level != MAX_NESTING
    ensures var order := KeyOrder(t.sets, |t.sets|);
      var a := Decode(ArrayHeader(|t.sets|) + EncodeElements(t, order, 0, level) + r);
      var m := Decode(MapHeader(|t.sets|) + EncodePairs(t, 0, level) + r);
      && a.Ok? && a.v == Table(ImageElements(t, order, 0, level))
      && m.Ok? && m.v == Table(ImagePairs(t, 0, level))
  {
    hide Decode, KeyOrder, IsArray;
    WellFormedIsStorable(t);
    DecodeArrayForm(t, level, r);
    DecodeMapForm(t, level, r);
    NoNullKey(t, level);
    NoNullInPairs(t, level);
  }

  lemma NoNullInPairs(t: Lua, level: nat)
    requires t.Table? && WellFormed(t)
    ensures !NullInPairs(t, 0, level)
  {
    hide NullKey;
    NullInPairsIff(t, 0, level);
    forall k | 0 <= k < |t.sets| ensures t.sets[k].key != Null && !NullKey(t.sets[k].val, level + 1) {
      assert t.sets[k] in t.sets;
      NoNullKey(t.sets[k].val, level + 1);
    }
  }

  /** Where NULL may be a table key: an encoded value is refused exactly when a table that is written has such a key. */
  lemma DecodesIff(v: Lua, r: bytes)
    requires Storable(v) && Encodable(v)
    ensures var d := Decode(Encode(v, 0) + r);
      && (d.Ok? <==> !NullKey(v, 0))
      && (NullKey(v, 0) ==> d == Fail(BadKey))
  {
    hide Decode;
    DecodeStorable(v, 0, r);
  }

  /** A strict prefix of an encoded value is reported as missing bytes. */
  lemma EncodedPrefixIsEof(v: Lua, k: nat)
    requires WellFormed(v) && Encodable(v) && k < |Encode(v, 0)|
    ensures Decode(Encode(v, 0)[..k]) == Fail(Eof)
  {
    DecodeEncode(v, 0, []);
    assert Encode(v, 0) + [] == Encode(v, 0);
    StrictPrefixIsEof(Encode(v, 0), k);
  }
}
