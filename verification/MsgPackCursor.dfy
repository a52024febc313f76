/** The reading cursor of lua_cmsgpack.c and the decoder that moves it. */
module MsgPackCursor {
  import opened Bytes
  import opened LuaValues
  import opened MsgPack
  import opened MsgPackStream

  datatype CursorError = NoError | Stopped(e: Error)

  class MpCur {
    const s: bytes
    var p: nat
    var left: nat
    var err: CursorError

    /** Position plus remaining is constant: it is the end of the input. */
    ghost predicate Valid()
      reads this
    {
      p + left == |s|
    }

    ghost function Rest(): bytes
      reads this
      requires Valid()
    {
      s[p..]
    }

    constructor (input: bytes, offset: nat)
      requires offset <= |input|
      ensures Valid() && s == input && p == offset && err == NoError
    {
      s := input;
      p, left, err := offset, |input| - offset, NoError;
    }

    function U8(i: nat): (n: nat)
      reads this
      requires Valid() && i < left
      ensures n == Unsigned(Rest()[i..i + 1]) == Rest()[i] < 256
    {
      UnsignedBytes(Rest()[i..i + 1]);
      s[p + i]
    }

    function U16(i: nat): (n: nat)
      reads this
      requires Valid() && i + 2 <= left
      ensures n == Unsigned(Rest()[i..i + 2]) < 0x1_0000
    {
      UnsignedBytes(Rest()[i..i + 2]);
      s[p + i] as int * 0x100 + s[p + i + 1]
    }

    function U32(i: nat): (n: nat)
      reads this
      requires Valid() && i + 4 <= left
      ensures n == Unsigned(Rest()[i..i + 4]) < 0x1_0000_0000
    {
      UnsignedBytes(Rest()[i..i + 4]);
      s[p + i] as int * 0x100_0000 + s[p + i + 1] as int * 0x1_0000 + s[p + i + 2] as int * 0x100 + s[p + i + 3]
    }

    function U64(i: nat): (n: nat)
      reads this
      requires Valid() && i + 8 <= left
      ensures n == Unsigned(Rest()[i..i + 8]) < 0x1_0000_0000_0000_0000
    {
      var t := Rest()[i..i + 8];
      UnsignedBytes8(t);
      assert t[..4] == Rest()[i..i + 4] && t[4..] == Rest()[i + 4..i + 8];
      U32(i) * 0x1_0000_0000 + U32(i + 4)
    }

    method Consume(n: nat)
      requires Valid() && n <= left
      modifies this`p, this`left
      ensures Valid() && p == old(p) + n
    {
      p, left := p + n, left - n;
    }

    /** A number of `k` bytes after the tag. */
    method ReadNumber(k: nat, signed: bool) returns (h: Head)
      requires Valid() && err == NoError && left >= 1 && (k == 1 || k == 2 || k == 4 || k == 8)
      modifies this
      ensures Valid()
      ensures h == if old(left) < 1 + k then Bad(Eof)
                   else Item(Int(if signed then Signed(old(Rest())[1..1 + k]) else Unsigned(old(Rest())[1..1 + k])), 1 + k)
      ensures if h.Bad? then err == Stopped(h.e) && p == old(p) else err == NoError && p == old(p) + h.used
    {
      if left < 1 + k {
        err := Stopped(Eof);
        return Bad(Eof);
      }
      var n := if k == 1 then U8(1) else if k == 2 then U16(1) else if k == 4 then U32(1) else U64(1);
      Widths();
      if signed {
        var half := if k == 1 then 0x80 else if k == 2 then 0x8000 else if k == 4 then 0x8000_0000 else 0x8000_0000_0000_0000;
        h := Item(Int(if n >= half then n - 2 * half else n), 1 + k);
      } else {
        h := Item(Int(n), 1 + k);
      }
      Consume(1 + k);
    }

    /** `len` raw bytes after a header of `from` bytes. */
    method ReadRaw(from: nat, len: nat) returns (h: Head)
      requires Valid() && err == NoError && from <= left
      modifies this
      ensures Valid()
      ensures h == RawString(old(Rest()), from, len)
      ensures if h.Bad? then err == Stopped(h.e) && p == old(p) else err == NoError && p == old(p) + h.used
    {
      if left < from + len {
        err := Stopped(Eof);
        return Bad(Eof);
      }
      SliceOfTail(s, p, from, len);
      h := Item(Str(s[p + from..p + from + len]), from + len);
      Consume(from + len);
    }

    method Need(n: nat) returns (ok: bool)
      requires Valid() && err == NoError
      modifies this`err
      ensures ok <==> n <= left
      ensures err == if ok then NoError else Stopped(Eof)
    {
      ok := n <= left;
      if !ok {
        err := Stopped(Eof);
      }
    }

    method ReadHeadAt() returns (h: Head)
      requires Valid() && err == NoError
      modifies this
      ensures Valid()
      ensures h == ReadHead(old(Rest()))
      ensures if h.Bad? then err == Stopped(h.e) && p == old(p) else err == NoError && p == old(p) + h.used
    {
      var ok := Need(1);
      if !ok { return Bad(Eof); }
      var t := s[p];
      if t == 0xcc { h := ReadNumber(1, false); }
      else if t == 0xd0 { h := ReadNumber(1, true); }
      else if t == 0xcd { h := ReadNumber(2, false); }
      else if t == 0xd1 { h := ReadNumber(2, true); }
      else if t == 0xce { h := ReadNumber(4, false); }
      else if t == 0xd2 { h := ReadNumber(4, true); }
      else if t == 0xcf || t == 0xd3 { h := ReadNumber(8, true); }
      else if t == 0xc0 { h := Item(Nil, 1); Consume(1); }
      else if t == 0xc3 { h := Item(Bool(true), 1); Consume(1); }
      else if t == 0xc2 { h := Item(Bool(false), 1); Consume(1); }
      else if t == 0xca || t == 0xcb { h := ReadDouble(if t == 0xca then 4 else 8); }
      else if 0xd9 <= t <= 0xdf { h := ReadSized(t); }
      else { h := ReadSmall(t); }
    }

    method ReadDouble(k: nat) returns (h: Head)
      requires Valid() && err == NoError && left >= 1
      modifies this
      ensures Valid()
      ensures h == if old(left) < 1 + k then Bad(Eof) else Item(Double(old(Rest())[1..1 + k]), 1 + k)
      ensures if h.Bad? then err == Stopped(h.e) && p == old(p) else err == NoError && p == old(p) + h.used
    {
      var ok := Need(1 + k);
      if !ok { return Bad(Eof); }
      SliceOfTail(s, p, 1, k);
      h := Item(Double(s[p + 1..p + 1 + k]), 1 + k);
      Consume(1 + k);
    }

    /** Strings, arrays and maps with a length of one, two or four bytes. */
    method ReadSized(t: byte) returns (h: Head)
      requires Valid() && err == NoError && left >= 1 && s[p] == t && 0xd9 <= t <= 0xdf
      modifies this
      ensures Valid()
      ensures h == ReadHead(old(Rest()))
      ensures if h.Bad? then err == Stopped(h.e) && p == old(p) else err == NoError && p == old(p) + h.used
    {
      var k := if t == 0xd9 then 1 else if t == 0xda || t == 0xdc || t == 0xde then 2 else 4;
      var ok := Need(1 + k);
      if !ok { return Bad(Eof); }
      var l := if k == 1 then U8(1) else if k == 2 then U16(1) else U32(1);
      assert l == Unsigned(Rest()[1..1 + k]);
      if t <= 0xdb {
        h := ReadRaw(1 + k, l);
      } else {
        h := if t <= 0xdd then ArrayOf(l, 1 + k) else MapOf(l, 1 + k);
        Consume(1 + k);
      }
    }

    /** Objects whose first byte also holds their value or length. */
    method ReadSmall(t: byte) returns (h: Head)
      requires Valid() && err == NoError && left >= 1 && s[p] == t
      requires t < 0xc0 || t == 0xc1 || 0xc4 <= t <= 0xc9 || 0xd4 <= t <= 0xd8 || 0xe0 <= t
      modifies this
      ensures Valid()
      ensures h == ReadHead(old(Rest()))
      ensures if h.Bad? then err == Stopped(h.e) && p == old(p) else err == NoError && p == old(p) + h.used
    {
      if t < 0x80 { h := Item(Int(t), 1); Consume(1); }
      else if t >= 0xe0 { h := Item(Int(t as int - 256), 1); Consume(1); }
      else if 0xa0 <= t < 0xc0 { h := ReadRaw(1, t - 0xa0); }
      else if 0x90 <= t < 0xa0 { h := ArrayOf(t - 0x90, 1); Consume(1); }
      else if 0x80 <= t < 0x90 { h := MapOf(t - 0x80, 1); Consume(1); }
      else { err := Stopped(BadFmt); h := Bad(BadFmt); }
    }

    /** Reads one object of any kind. On success the cursor moves over exactly its bytes; any input ends in a
        value or in an error. */
    method DecodeType() returns (v: Lua)
      requires Valid() && err == NoError
      modifies this
      ensures Valid() && p >= old(p)
      ensures var d := Decode(old(Rest()));
        if d.Ok? then err == NoError && v == d.v && p == old(p) + d.used else err == Stopped(d.e)
      decreases left, 0
    {
      hide ReadHead;
      v := Nil;
      var h := ReadHeadAt();
      match h
      case Bad(_) =>
      case Item(x, _) => v := x;
      case ArrayOf(len, n) =>
        assert Rest() == old(Rest())[n..];
        var sets := DecodeArray(len);
        v := Table(sets);
      case MapOf(len, n) =>
        assert Rest() == old(Rest())[n..];
        var sets := DecodeHash(len);
        v := Table(sets);
    }

    method DecodeArray(count: nat) returns (sets: seq<Assign>)
      requires Valid() && err == NoError
      modifies this
      ensures Valid() && p >= old(p)
      ensures var d := DecodeElements(old(Rest()), 1, count);
        if d.SetsOk? then err == NoError && sets == d.sets && p == old(p) + d.used else err == Stopped(d.e)
      decreases left, 1
    {
      hide ReadHead, Decode, DecodeElements, Prepended;
      sets := [];
      var index, len := 1, count;
      ghost var whole := DecodeElements(Rest(), 1, count);
      PrependedNothing(whole);
      while len > 0
        invariant Valid() && err == NoError && p >= old(p)
        invariant whole == Prepended(sets, p - old(p), DecodeElements(Rest(), index, len))
      {
        ghost var here, at := Rest(), p;
        ElementsTurn(sets, at - old(p), here, index, len);
        var v := DecodeType();
        if err != NoError { return; }
        assert Rest() == here[p - at..];
        sets := sets + [Assign(Int(index), v)];
        index, len := index + 1, len - 1;
      }
      ElementsEnd(sets, p - old(p), Rest(), index);
    }

    /** A key and its value; Lua refuses a nil or NaN key when the assignment is made. */
    method DecodeKeyAndValue() returns (first: seq<Assign>)
      requires Valid() && err == NoError
      modifies this
      ensures Valid() && p >= old(p)
      ensures var d := DecodePair(old(Rest()));
        if d.SetsOk? then err == NoError && first == d.sets && p == old(p) + d.used else err == Stopped(d.e)
      decreases left, 1
    {
      hide ReadHead, Decode, NotANumber;
      first := [];
      ghost var here, at := Rest(), p;
      var key := DecodeType();
      if err != NoError { return; }
      assert Rest() == here[p - at..];
      var val := DecodeType();
      if err != NoError { return; }
      if key == Nil || NotANumber(key) {
        err := Stopped(BadKey);
        return;
      }
      first := [Assign(key, val)];
    }

    method DecodeHash(count: nat) returns (sets: seq<Assign>)
      requires Valid() && err == NoError
      modifies this
      ensures Valid() && p >= old(p)
      ensures var d := DecodePairs(old(Rest()), count);
        if d.SetsOk? then err == NoError && sets == d.sets && p == old(p) + d.used else err == Stopped(d.e)
      decreases left, 2
    {
      hide ReadHead, Decode, DecodePair, DecodePairs, Prepended;
      sets := [];
      var len := count;
      ghost var whole := DecodePairs(Rest(), count);
      PrependedNothing(whole);
      while len > 0
        invariant Valid() && err == NoError && p >= old(p)
        invariant whole == Prepended(sets, p - old(p), DecodePairs(Rest(), len))
      {
        ghost var here, at := Rest(), p;
        PairsTurn(sets, at - old(p), here, len);
        var first := DecodeKeyAndValue();
        if err != NoError { return; }
        assert Rest() == here[p - at..];
        sets := sets + first;
        len := len - 1;
      }
      PairsEnd(sets, p - old(p), Rest());
    }
  }

  /** The assignments read so far in front of those still to be read. */
  ghost function Prepended(sets: seq<Assign>, n: nat, d: DecodedSets): DecodedSets {
    match d
    case SetsFail(e) => d
    case SetsOk(rest, k) => SetsOk(sets + rest, n + k)
  }

  lemma PrependedNothing(d: DecodedSets)
    ensures Prepended([], 0, d) == d
  {
    if d.SetsOk? {
      assert [] + d.sets == d.sets;
    }
  }

  lemma ElementsTurn(sets: seq<Assign>, n: nat, s: bytes, index: nat, len: nat)
    requires len > 0
    ensures Prepended(sets, n, DecodeElements(s, index, len)) ==
      match Decode(s)
      case Fail(e) => SetsFail(e)
      case Ok(v, k) => Prepended(sets + [Assign(Int(index), v)], n + k, DecodeElements(s[k..], index + 1, len - 1))
  {
    hide Decode, Prepended;
    FailsPrepended(sets, n);
    match Decode(s)
    case Fail(_) =>
    case Ok(v, k) =>
      var rest := DecodeElements(s[k..], index + 1, len - 1);
      PrependedOnce([Assign(Int(index), v)], k, rest);
      PrependedTwice(sets, n, [Assign(Int(index), v)], k, rest);
  }

  lemma PairsTurn(sets: seq<Assign>, n: nat, s: bytes, len: nat)
    requires len > 0
    ensures Prepended(sets, n, DecodePairs(s, len)) ==
      match DecodePair(s)
      case SetsFail(e) => SetsFail(e)
      case SetsOk(first, k) => Prepended(sets + first, n + k, DecodePairs(s[k..], len - 1))
  {
    hide DecodePair, Prepended;
    FailsPrepended(sets, n);
    match DecodePair(s)
    case SetsFail(_) =>
    case SetsOk(first, k) =>
      var rest := DecodePairs(s[k..], len - 1);
      PrependedOnce(first, k, rest);
      PrependedTwice(sets, n, first, k, rest);
  }

  lemma FailsPrepended(sets: seq<Assign>, n: nat)
    ensures forall e :: Prepended(sets, n, SetsFail(e)) == SetsFail(e)
  {
  }

  lemma PrependedOnce(first: seq<Assign>, k: nat, d: DecodedSets)
    ensures Prepended(first, k, d) == match d case SetsFail(_) => d case SetsOk(rest, m) => SetsOk(first + rest, k + m)
  {
  }

  lemma ElementsEnd(sets: seq<Assign>, n: nat, s: bytes, index: nat)
    ensures Prepended(sets, n, DecodeElements(s, index, 0)) == SetsOk(sets, n)
  {
    assert sets + [] == sets;
  }

  lemma PairsEnd(sets: seq<Assign>, n: nat, s: bytes)
    ensures Prepended(sets, n, DecodePairs(s, 0)) == SetsOk(sets, n)
  {
    assert sets + [] == sets;
  }

  lemma PrependedTwice(a: seq<Assign>, n: nat, b: seq<Assign>, m: nat, d: DecodedSets)
    ensures Prepended(a, n, Prepended(b, m, d)) == Prepended(a + b, n + m, d)
  {
    if d.SetsOk? {
      assert a + (b + d.sets) == a + b + d.sets;
    }
  }

  /** One turn of the unpacking loop, with `vals` read so far from the first `n` bytes. */
  lemma UnpackTurn(vals: seq<Lua>, n: nat, s: bytes, limit: nat)
    requires s != [] && limit > 0
    ensures Glue(vals, n, DecodeMany(Decode, s, limit)) ==
      match Decode(s)
      case Fail(e) => Many.Stop(e)
      case Ok(v, k) => Glue(vals + [v], n + k, DecodeMany(Decode, s[k..], limit - 1))
  {
    hide ReadHead, Decode, DecodeMany;
    if Decode(s).Ok? {
      var v, k := Decode(s).v, Decode(s).used;
      DecodeManyFirst(Decode, s, limit);
      GlueGlue(vals, n, [v], k, DecodeMany(Decode, s[k..], limit - 1));
    } else {
      DecodeManyFails(Decode, s, limit);
    }
  }

  lemma UnpackEnd(vals: seq<Lua>, n: nat, s: bytes, limit: nat)
    requires s == [] || limit == 0
    ensures Glue(vals, n, DecodeMany(Decode, s, limit)) == Good(vals, n)
  {
    assert vals + [] == vals;
  }

  /** The three unpack functions: read objects until the input or the limit runs out. */
  method UnpackFull(s: bytes, limit: int, offset: int) returns (u: Unpacked)
    ensures u == Unpack(Decode, s, limit, offset)
  {
    hide ReadHead, Decode, DecodeMany;
    if offset < 0 || limit < 0 {
      return BadRequest;
    } else if offset > |s| {
      return PastEnd;
    }
    var decodeAll := limit == 0 && offset == 0;
    var bound := if decodeAll then INT_MAX else limit;
    var m := UnpackLoop(s, offset, bound);
    if m.Stop? {
      return Unpacked.Raised(m.e);
    }
    if decodeAll {
      return Objects(m.vals, None);
    }
    return Objects(m.vals, if offset + m.used == |s| then At(-1) else At(offset + m.used));
  }

  lemma SliceOfTail(s: bytes, p: nat, from: nat, len: nat)
    requires p + from + len <= |s|
    ensures s[p + from..p + from + len] == s[p..][from..from + len]
  {
  }

  /** The objects read so far, and those still to be read from `p` on, are the whole. */
  ghost predicate SoFar(s: bytes, offset: nat, p: nat, vals: seq<Lua>, limit: nat, whole: Many) {
    && offset <= p <= |s| && |vals| <= limit
    && whole == Glue(vals, p - offset, DecodeMany(Decode, s[p..], limit - |vals|))
  }

  lemma UnpackNone(s: bytes, offset: nat, limit: nat)
    requires offset <= |s|
    ensures SoFar(s, offset, offset, [], limit, DecodeMany(Decode, s[offset..], limit))
  {
    hide Decode, DecodeMany, Glue;
    GlueNothing(DecodeMany(Decode, s[offset..], limit));
  }

  /** One object more, or the error that ends the reading. */
  lemma UnpackOne(s: bytes, offset: nat, at: nat, vals: seq<Lua>, limit: nat, whole: Many)
    requires SoFar(s, offset, at, vals, limit, whole) && at < |s| && |vals| < limit
    ensures var d := Decode(s[at..]); d.Fail? ==> whole == Many.Stop(d.e)
    ensures var d := Decode(s[at..]); d.Ok? ==> SoFar(s, offset, at + d.used, vals + [d.v], limit, whole)
  {
    hide ReadHead, Decode, DecodeMany, Glue;
    UnpackTurn(vals, at - offset, s[at..], limit - |vals|);
    var d := Decode(s[at..]);
    if d.Ok? {
      assert s[at..][d.used..] == s[at + d.used..];
    }
  }

  lemma UnpackAll(s: bytes, offset: nat, p: nat, vals: seq<Lua>, limit: nat, whole: Many)
    requires SoFar(s, offset, p, vals, limit, whole) && (p == |s| || |vals| == limit)
    ensures whole == Good(vals, p - offset)
  {
    hide Decode, DecodeMany, Glue;
    UnpackEnd(vals, p - offset, s[p..], limit - |vals|);
  }

  method UnpackLoop(s: bytes, offset: nat, limit: nat) returns (m: Many)
    requires offset <= |s|
    ensures m == DecodeMany(Decode, s[offset..], limit)
  {
    hide ReadHead, Decode, DecodeMany, SoFar;
    var c := new MpCur(s, offset);
    ghost var whole := DecodeMany(Decode, s[offset..], limit);
    var vals: seq<Lua> := [];
    UnpackNone(s, offset, limit);
    while c.left > 0 && |vals| < limit
      invariant c.Valid() && c.s == s && c.err == NoError && c.p >= offset && |vals| <= limit
      invariant SoFar(s, offset, c.p, vals, limit, whole)
      decreases c.left
    {
      ghost var at := c.p;
      var v := c.DecodeType();
      UnpackOne(s, offset, at, vals, limit, whole);
      if c.err != NoError {
        return Many.Stop(c.err.e);
      }
      vals := vals + [v];
    }
    UnpackAll(s, offset, c.p, vals, limit, whole);
    return Good(vals, c.p - offset);
  }

  lemma GlueNothing(m: Many)
    ensures Glue([], 0, m) == m
  {
    if m.Good? {
      assert [] + m.vals == m.vals;
    }
  }
}
