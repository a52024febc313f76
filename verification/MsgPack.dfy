/** The MessagePack codec of lua_cmsgpack.c as functions on byte strings: what the encoder writes and what
    the decoder makes of any input. */
module MsgPack {
  import opened Bytes
  import opened LuaValues
  import opened LuaTables

  const MAX_NESTING := 16

  // ---------------------------------------------------------------- encoding

  function StringHeader(len: nat): bytes
    requires len < 0x1_0000_0000
  {
    if len < 32 then [0xa0 + len]
    else if len <= 0xff then [0xd9] + BigEndian(len, 1)
    else if len <= 0xffff then [0xda] + BigEndian(len, 2)
    else [0xdb] + BigEndian(len, 4)
  }

  function IntBytes(n: int): bytes
    requires -0x8000_0000_0000_0000 <= n < 0x8000_0000_0000_0000
  {
    if n >= 0 then
      if n <= 127 then [n]
      else if n <= 0xff then [0xcc] + BigEndian(n, 1)
      else if n <= 0xffff then [0xcd] + BigEndian(n, 2)
      else if n <= 0xffff_ffff then [0xce] + BigEndian(n, 4)
      else [0xcf] + BigEndian(n, 8)
    else
      if n >= -32 then [256 + n]
      else if n >= -128 then [0xd0] + BigEndian(n, 1)
      else if n >= -32768 then [0xd1] + BigEndian(n, 2)
      else if n >= -2147483648 then [0xd2] + BigEndian(n, 4)
      else [0xd3] + BigEndian(n, 8)
  }

  function ArrayHeader(n: nat): bytes
    requires n < 0x1_0000_0000
  {
    if n <= 15 then [0x90 + n]
    else if n <= 65535 then [0xdc] + BigEndian(n, 2)
    else [0xdd] + BigEndian(n, 4)
  }

  function MapHeader(n: nat): bytes
    requires n < 0x1_0000_0000
  {
    if n <= 15 then [0x80 + n]
    else if n <= 65535 then [0xde] + BigEndian(n, 2)
    else [0xdf] + BigEndian(n, 4)
  }

  /** Lengths the 32-bit headers can carry, in a value and in every value inside it. */
  predicate Encodable(v: Lua) {
    match v
    case Str(s) => |s| < 0x1_0000_0000
    case Int(n) => -0x8000_0000_0000_0000 <= n < 0x8000_0000_0000_0000
    case Table(sets) => |sets| < 0x1_0000_0000 && forall e :: e in sets ==> Encodable(e.key) && Encodable(e.val)
    case _ => true
  }

  function Encode(v: Lua, level: nat): bytes
    requires Encodable(v)
    decreases v
  {
    match v
    case Nil => [0xc0]
    case Null => [0xc0]
    case Bool(b) => [if b then 0xc3 else 0xc2]
    case Int(n) => IntBytes(n)
    case Double(w) => [if |w| == 4 then 0xca else 0xcb] + w
    case Str(s) => StringHeader(|s|) + s
    case Table(sets) =>
      if level == MAX_NESTING then [0xc0]
      else if IsArray(sets) then ArrayHeader(|sets|) + EncodeElements(v, KeyOrder(sets, |sets|), 0, level)
      else MapHeader(|sets|) + EncodePairs(v, 0, level)
  }

  /** One element, looked up by its key; an absent one reads as nil. */
  function EncodeElement(t: Lua, p: nat, level: nat): bytes
    requires t.Table? && Encodable(t)
    decreases t, 0
  {
    if p >= |t.sets| then [0xc0] else assert t.sets[p] in t.sets; Encode(t.sets[p].val, level + 1)
  }

  function EncodeElements(t: Lua, order: seq<nat>, j: nat, level: nat): bytes
    requires t.Table? && Encodable(t) && j <= |order|
    decreases t, 1, |order| - j
  {
    if j == |order| then [] else EncodeElement(t, order[j], level) + EncodeElements(t, order, j + 1, level)
  }

  function EncodePair(t: Lua, i: nat, level: nat): bytes
    requires t.Table? && Encodable(t) && i < |t.sets|
    decreases t, 0
  {
    assert t.sets[i] in t.sets;
    Encode(t.sets[i].key, level + 1) + Encode(t.sets[i].val, level + 1)
  }

  function EncodePairs(t: Lua, i: nat, level: nat): bytes
    requires t.Table? && Encodable(t) && i <= |t.sets|
    decreases t, 1, |t.sets| - i
  {
    if i == |t.sets| then [] else EncodePair(t, i, level) + EncodePairs(t, i + 1, level)
  }

  // ---------------------------------------------------------------- decoding

  /** Eof and BadFmt are the cursor's errors. BadKey is the error Lua raises for a nil or NaN index. */
  datatype Error = Eof | BadFmt | BadKey

  datatype Decoded = Ok(v: Lua, used: nat) | Fail(e: Error)

  datatype DecodedSets = SetsOk(sets: seq<Assign>, used: nat) | SetsFail(e: Error)

  /** What the first bytes of an object say: a whole scalar, or the size of a container to be read next. */
  datatype Head =
    | Item(v: Lua, used: nat)
    | ArrayOf(len: nat, used: nat)
    | MapOf(len: nat, used: nat)
    | Bad(e: Error)

  function RawString(s: bytes, from: nat, len: nat): Head {
    if |s| < from + len then Bad(Eof) else Item(Str(s[from..from + len]), from + len)
  }

  function ReadHead(s: bytes): (h: Head)
    ensures !h.Bad? ==> 0 < h.used <= |s|
  {
    if |s| < 1 then Bad(Eof) else
    var t := s[0];
    if t == 0xcc then if |s| < 2 then Bad(Eof) else Item(Int(Unsigned(s[1..2])), 2)
    else if t == 0xd0 then if |s| < 2 then Bad(Eof) else Item(Int(Signed(s[1..2])), 2)
    else if t == 0xcd then if |s| < 3 then Bad(Eof) else Item(Int(Unsigned(s[1..3])), 3)
    else if t == 0xd1 then if |s| < 3 then Bad(Eof) else Item(Int(Signed(s[1..3])), 3)
    else if t == 0xce then if |s| < 5 then Bad(Eof) else Item(Int(Unsigned(s[1..5])), 5)
    else if t == 0xd2 then if |s| < 5 then Bad(Eof) else Item(Int(Signed(s[1..5])), 5)
    // A 64-bit unsigned number passes through a signed 64-bit one.
    else if t == 0xcf || t == 0xd3 then if |s| < 9 then Bad(Eof) else Item(Int(Signed(s[1..9])), 9)
    else if t == 0xc0 then Item(Nil, 1)
    else if t == 0xc3 then Item(Bool(true), 1)
    else if t == 0xc2 then Item(Bool(false), 1)
    else if t == 0xca then if |s| < 5 then Bad(Eof) else Item(Double(s[1..5]), 5)
    else if t == 0xcb then if |s| < 9 then Bad(Eof) else Item(Double(s[1..9]), 9)
    else if t == 0xd9 then if |s| < 2 then Bad(Eof) else RawString(s, 2, Unsigned(s[1..2]))
    else if t == 0xda then if |s| < 3 then Bad(Eof) else RawString(s, 3, Unsigned(s[1..3]))
    else if t == 0xdb then if |s| < 5 then Bad(Eof) else RawString(s, 5, Unsigned(s[1..5]))
    else if t == 0xdc then if |s| < 3 then Bad(Eof) else ArrayOf(Unsigned(s[1..3]), 3)
    else if t == 0xdd then if |s| < 5 then Bad(Eof) else ArrayOf(Unsigned(s[1..5]), 5)
    else if t == 0xde then if |s| < 3 then Bad(Eof) else MapOf(Unsigned(s[1..3]), 3)
    else if t == 0xdf then if |s| < 5 then Bad(Eof) else MapOf(Unsigned(s[1..5]), 5)
    else if t < 0x80 then Item(Int(t), 1)
    else if t >= 0xe0 then Item(Int(t as int - 256), 1)
    else if 0xa0 <= t < 0xc0 then RawString(s, 1, t - 0xa0)
    else if 0x90 <= t < 0xa0 then ArrayOf(t - 0x90, 1)
    else if 0x80 <= t < 0x90 then MapOf(t - 0x80, 1)
    else Bad(BadFmt)
  }

  function Decode(s: bytes): (d: Decoded)
    ensures d.Ok? ==> 0 < d.used <= |s|
    decreases |s|, 0
  {
    match ReadHead(s)
    case Bad(e) => Fail(e)
    case Item(v, n) => Ok(v, n)
    case ArrayOf(len, n) =>
      (match DecodeElements(s[n..], 1, len)
       case SetsFail(e) => Fail(e)
       case SetsOk(sets, k) => Ok(Table(sets), n + k))
    case MapOf(len, n) =>
      (match DecodePairs(s[n..], len)
       case SetsFail(e) => Fail(e)
       case SetsOk(sets, k) => Ok(Table(sets), n + k))
  }

  function DecodeElements(s: bytes, index: nat, len: nat): (d: DecodedSets)
    ensures d.SetsOk? ==> d.used <= |s|
    decreases |s|, 1
  {
    if len == 0 then SetsOk([], 0) else
      match Decode(s)
      case Fail(e) => SetsFail(e)
      case Ok(v, n) =>
        match DecodeElements(s[n..], index + 1, len - 1)
        case SetsFail(e) => SetsFail(e)
        case SetsOk(rest, k) => SetsOk([Assign(Int(index), v)] + rest, n + k)
  }

  /** A key, its value, and the assignment of one to the other. */
  function DecodePair(s: bytes): (d: DecodedSets)
    ensures d.SetsOk? ==> 0 < d.used <= |s|
    decreases |s|, 1
  {
    match Decode(s)
    case Fail(e) => SetsFail(e)
    case Ok(key, n) =>
      match Decode(s[n..])
      case Fail(e) => SetsFail(e)
      case Ok(val, m) =>
        if key == Nil || NotANumber(key) then SetsFail(BadKey) else SetsOk([Assign(key, val)], n + m)
  }

  function DecodePairs(s: bytes, len: nat): (d: DecodedSets)
    ensures d.SetsOk? ==> d.used <= |s|
    decreases |s|, 2
  {
    if len == 0 then SetsOk([], 0) else
      match DecodePair(s)
      case SetsFail(e) => SetsFail(e)
      case SetsOk(first, n) =>
        match DecodePairs(s[n..], len - 1)
        case SetsFail(e) => SetsFail(e)
        case SetsOk(rest, k) => SetsOk(first + rest, n + k)
  }

  // ---------------------------------------------------------------- a success does not look past its end

  lemma ReadHeadExtend(s: bytes, t: bytes)
    ensures ReadHead(s) != Bad(Eof) ==> ReadHead(s + t) == ReadHead(s)
  {
    assert forall i, j :: 0 <= i <= j <= |s| ==> (s + t)[i..j] == s[i..j];
  }

  /** Bytes appended after an input change nothing, unless the input had ended too early. */
  lemma {:induction false} DecodeExtend(s: bytes, t: bytes)
    ensures Decode(s) != Fail(Eof) ==> Decode(s + t) == Decode(s)
    decreases |s|, 0
  {
    ReadHeadExtend(s, t);
    match ReadHead(s)
    case Bad(_) =>
    case Item(_, _) =>
    case ArrayOf(len, n) =>
      assert (s + t)[n..] == s[n..] + t;
      DecodeElementsExtend(s[n..], 1, len, t);
    case MapOf(len, n) =>
      assert (s + t)[n..] == s[n..] + t;
      DecodePairsExtend(s[n..], len, t);
  }

  lemma {:induction false} DecodeElementsExtend(s: bytes, index: nat, len: nat, t: bytes)
    ensures DecodeElements(s, index, len) != SetsFail(Eof) ==>
      DecodeElements(s + t, index, len) == DecodeElements(s, index, len)
    decreases |s|, 1
  {
    hide Decode;
    if len != 0 {
      DecodeExtend(s, t);
      if Decode(s).Ok? {
        var n := Decode(s).used;
        assert (s + t)[n..] == s[n..] + t;
        DecodeElementsExtend(s[n..], index + 1, len - 1, t);
      }
    }
  }

  lemma {:induction false} DecodePairExtend(s: bytes, t: bytes)
    ensures DecodePair(s) != SetsFail(Eof) ==> DecodePair(s + t) == DecodePair(s)
    decreases |s|, 1
  {
    hide Decode;
    DecodeExtend(s, t);
    if Decode(s).Ok? {
      var n := Decode(s).used;
      assert (s + t)[n..] == s[n..] + t;
      DecodeExtend(s[n..], t);
    }
  }

  lemma {:induction false} DecodePairsExtend(s: bytes, len: nat, t: bytes)
    ensures DecodePairs(s, len) != SetsFail(Eof) ==> DecodePairs(s + t, len) == DecodePairs(s, len)
    decreases |s|, 2
  {
    hide DecodePair;
    if len != 0 {
      DecodePairExtend(s, t);
      if DecodePair(s).SetsOk? {
        var n := DecodePair(s).used;
        assert (s + t)[n..] == s[n..] + t;
        DecodePairsExtend(s[n..], len - 1, t);
      }
    }
  }

  /** Cutting a decodable input short of its end always reports missing bytes: never a value, never bad data. */
  lemma StrictPrefixIsEof(s: bytes, k: nat)
    requires Decode(s).Ok? && k < Decode(s).used
    ensures Decode(s[..k]) == Fail(Eof)
  {
    DecodeExtend(s[..k], s[k..]);
    assert s[..k] + s[k..] == s;
  }
}
