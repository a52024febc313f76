/** Streams of objects: pack, unpack, and unpacking a few objects at a time from a returned offset. */
module MsgPackStream {
  import opened Bytes
  import opened LuaValues
  import opened MsgPack
  import opened MsgPackRoundTrip
  import opened MsgPackBuffer

  const INT_MAX := 0x7fff_ffff

  function Join(parts: seq<bytes>): bytes {
    if parts == [] then [] else parts[0] + Join(parts[1..])
  }

  function Pieces(vs: seq<Lua>): (parts: seq<bytes>)
    requires forall v :: v in vs ==> Encodable(v)
  {
    seq(|vs|, i requires 0 <= i < |vs| => Encode(vs[i], 0))
  }

  function Images(vs: seq<Lua>): (r: seq<Lua>)
  {
    seq(|vs|, i requires 0 <= i < |vs| => Image(vs[i], 0))
  }

  /** The results of an unpack call: the objects, and the offset to go on from (None when it returns none,
      -1 at the end of the input); or the error it raises. */
  datatype Unpacked =
    | Objects(vals: seq<Lua>, next: NextOffset)
    | BadRequest
    | PastEnd
    | Raised(e: Error)

  datatype NextOffset = None | At(offset: int)

  /** Objects one after the other until the input or the limit runs out. */
  datatype Many = Good(vals: seq<Lua>, used: nat) | Stop(e: Error)

  ghost predicate Advances(dec: bytes -> Decoded) {
    forall s :: dec(s).Ok? ==> 0 < dec(s).used <= |s|
  }

  function DecodeMany(dec: bytes -> Decoded, s: bytes, limit: nat): (m: Many)
    requires Advances(dec)
    ensures m.Good? ==> m.used <= |s| && (limit > 0 && s != [] ==> m.used > 0)
    ensures m.Good? && limit >= |s| ==> m.used == |s|
    decreases |s|
  {
    if s == [] || limit == 0 then Good([], 0) else
      match dec(s)
      case Fail(e) => Stop(e)
      case Ok(v, n) => Glue([v], n, DecodeMany(dec, s[n..], limit - 1))
  }

  function Glue(vs: seq<Lua>, n: nat, rest: Many): (m: Many)
    ensures m.Good? <==> rest.Good?
    ensures m.Good? ==> m.used == n + rest.used
  {
    match rest
    case Stop(e) => Stop(e)
    case Good(ws, k) => Good(vs + ws, n + k)
  }

  /** For any decoder of single objects; the codec's own is `Decode`. */
  function Unpack(dec: bytes -> Decoded, s: bytes, limit: int, offset: int): Unpacked
    requires Advances(dec)
  {
    if offset < 0 || limit < 0 then BadRequest
    else if offset > |s| then PastEnd
    else
      var all := limit == 0 && offset == 0;
      match DecodeMany(dec, s[offset..], if all then INT_MAX else limit)
      case Stop(e) => Raised(e)
      case Good(vs, k) =>
        Objects(vs, if all then None else if offset + k == |s| then At(-1) else At(offset + k))
  }

  // ---------------------------------------------------------------- packing and unpacking

  lemma DecodeManyStep(dec: bytes -> Decoded, e: bytes, v: Lua, rest: bytes, limit: nat)
    requires Advances(dec) && limit > 0 && dec(e + rest) == Ok(v, |e|)
    ensures DecodeMany(dec, e + rest, limit) == Glue([v], |e|, DecodeMany(dec, rest, limit - 1))
  {
    assert (e + rest)[|e|..] == rest;
  }

  ghost predicate ReadsBack(dec: bytes -> Decoded, e: bytes, v: Lua) {
    forall r :: dec(e + r) == Ok(v, |e|)
  }

  lemma {:induction false} DecodeManyJoin(dec: bytes -> Decoded, parts: seq<bytes>, vs: seq<Lua>, limit: nat)
    requires Advances(dec) && |vs| == |parts| <= limit
    requires forall i :: 0 <= i < |vs| ==> ReadsBack(dec, parts[i], vs[i])
    ensures DecodeMany(dec, Join(parts), limit) == Good(vs, |Join(parts)|)
  {
    if vs != [] {
      assert ReadsBack(dec, parts[0], vs[0]);
      DecodeManyJoin(dec, parts[1..], vs[1..], limit - 1);
      DecodeManyStep(dec, parts[0], vs[0], Join(parts[1..]), limit);
      assert [vs[0]] + vs[1..] == vs;
    }
  }

  lemma PiecesReadBack(vs: seq<Lua>, i: nat)
    requires i < |vs| && forall v :: v in vs ==> WellFormed(v) && Encodable(v)
    ensures ReadsBack(Decode, Pieces(vs)[i], Images(vs)[i])
  {
    forall r
      ensures Decode(Pieces(vs)[i] + r) == Ok(Images(vs)[i], |Pieces(vs)[i]|)
    {
      DecodeEncode(vs[i], 0, r);
    }
  }

  /** Unpacking what was packed gives the arguments back, as far as each one survives encoding. */
  lemma UnpackPack(vs: seq<Lua>)
    requires |vs| <= INT_MAX && forall v :: v in vs ==> WellFormed(v) && Encodable(v)
    ensures Unpack(Decode, Join(Pieces(vs)), 0, 0) == Objects(Images(vs), None)
    ensures forall i :: 0 <= i < |vs| ==> Meaning(Images(vs)[i]) == Pruned(Meaning(vs[i]), 0)
  {
    forall i | 0 <= i < |vs|
      ensures ReadsBack(Decode, Pieces(vs)[i], Images(vs)[i])
      ensures Meaning(Images(vs)[i]) == Pruned(Meaning(vs[i]), 0)
    {
      PiecesReadBack(vs, i);
      MeaningOfImage(vs[i], 0);
    }
    DecodeManyJoin(Decode, Pieces(vs), Images(vs), INT_MAX);
    assert Join(Pieces(vs))[0..] == Join(Pieces(vs));
  }

  // ---------------------------------------------------------------- resuming

  /** A caller that asks for `limit` objects at a time, each time from the offset returned, until it is -1. */
  function Resume(dec: bytes -> Decoded, s: bytes, limit: nat, offset: nat): Unpacked
    requires Advances(dec) && limit >= 1 && offset <= |s|
    decreases |s| - offset
  {
    match Unpack(dec, s, limit, offset)
    case Objects(vs, At(next)) =>
      if next == -1 then Objects(vs, None) else Prepend(vs, Resume(dec, s, limit, next))
    case e => e
  }

  function Prepend(vs: seq<Lua>, u: Unpacked): Unpacked {
    match u
    case Objects(ws, _) => Objects(vs + ws, None)
    case e => e
  }

  lemma GlueGlue(vs: seq<Lua>, n: nat, ws: seq<Lua>, k: nat, rest: Many)
    ensures Glue(vs, n, Glue(ws, k, rest)) == Glue(vs + ws, n + k, rest)
  {
    if rest.Good? {
      assert vs + (ws + rest.vals) == vs + ws + rest.vals;
    }
  }

  lemma DecodeManyFirst(dec: bytes -> Decoded, s: bytes, limit: nat)
    requires Advances(dec) && s != [] && limit > 0 && dec(s).Ok?
    ensures DecodeMany(dec, s, limit) == Glue([dec(s).v], dec(s).used, DecodeMany(dec, s[dec(s).used..], limit - 1))
  {
  }

  lemma DecodeManyFails(dec: bytes -> Decoded, s: bytes, limit: nat)
    requires Advances(dec) && s != [] && limit > 0 && dec(s).Fail?
    ensures DecodeMany(dec, s, limit) == Stop(dec(s).e)
  {
  }

  /** The outcome of reading some objects, and then, if that went well, more. */
  function Continue(m: Many, rest: Many): Many {
    if m.Stop? then m else Glue(m.vals, m.used, rest)
  }

  lemma GlueContinue(vs: seq<Lua>, n: nat, m: Many, rest: Many)
    ensures Glue(vs, n, Continue(m, rest)) == Continue(Glue(vs, n, m), rest)
  {
    if m.Good? {
      GlueGlue(vs, n, m.vals, m.used, rest);
    }
  }

  ghost function RestAfter(s: bytes, m: Many): bytes {
    if m.Good? && m.used <= |s| then s[m.used..] else []
  }

  ghost predicate Splits(dec: bytes -> Decoded, s: bytes, limit: nat, more: nat)
    requires Advances(dec)
  {
    var m := DecodeMany(dec, s, limit);
    DecodeMany(dec, s, limit + more) == Continue(m, DecodeMany(dec, RestAfter(s, m), more))
  }

  lemma SplitsAtOnce(dec: bytes -> Decoded, s: bytes, limit: nat, more: nat)
    requires Advances(dec) && (s == [] || limit == 0 || dec(s).Fail?)
    ensures Splits(dec, s, limit, more)
  {
    assert s[0..] == s;
    var r := DecodeMany(dec, s, more);
    if r.Good? {
      assert [] + r.vals == r.vals;
    }
  }

  lemma SplitsLater(dec: bytes -> Decoded, s: bytes, limit: nat, more: nat)
    requires Advances(dec) && s != [] && limit > 0 && dec(s).Ok?
    requires Splits(dec, s[dec(s).used..], limit - 1, more)
    ensures Splits(dec, s, limit, more)
  {
    hide DecodeMany, Glue;
    var v, n := dec(s).v, dec(s).used;
    var t := s[n..];
    var m := DecodeMany(dec, t, limit - 1);
    DecodeManyFirst(dec, s, limit);
    DecodeManyFirst(dec, s, limit + more);
    assert m.Good? ==> RestAfter(t, m) == RestAfter(s, Glue([v], n, m));
    GlueContinue([v], n, m, DecodeMany(dec, RestAfter(t, m), more));
  }

  /** Reading `limit` objects and then `more` is reading `limit + more`. */
  lemma {:induction false} DecodeManySplit(dec: bytes -> Decoded, s: bytes, limit: nat, more: nat)
    requires Advances(dec)
    ensures Splits(dec, s, limit, more)
    decreases |s|
  {
    hide Splits, DecodeMany;
    if s == [] || limit == 0 || dec(s).Fail? {
      SplitsAtOnce(dec, s, limit, more);
    } else {
      DecodeManySplit(dec, s[dec(s).used..], limit - 1, more);
      SplitsLater(dec, s, limit, more);
    }
  }

  lemma {:induction false} DecodeManyEnough(dec: bytes -> Decoded, s: bytes, limit: nat, more: nat)
    requires Advances(dec) && |s| <= limit
    ensures DecodeMany(dec, s, limit + more) == DecodeMany(dec, s, limit)
    decreases |s|
  {
    if s != [] && dec(s).Ok? {
      DecodeManyEnough(dec, s[dec(s).used..], limit - 1, more);
    }
  }

  function Finished(m: Many): Unpacked {
    match m
    case Stop(e) => Raised(e)
    case Good(vs, _) => Objects(vs, None)
  }

  lemma ResumeStep(dec: bytes -> Decoded, s: bytes, limit: nat, offset: nat, m: Many)
    requires Advances(dec) && limit >= 1 && offset <= |s| && m == DecodeMany(dec, s[offset..], limit)
    ensures Resume(dec, s, limit, offset) ==
      if m.Stop? then Raised(m.e)
      else if offset + m.used == |s| then Objects(m.vals, None)
      else Prepend(m.vals, Resume(dec, s, limit, offset + m.used))
  {
    var u := Unpack(dec, s, limit, offset);
    assert u == if m.Stop? then Raised(m.e)
                else Objects(m.vals, if offset + m.used == |s| then At(-1) else At(offset + m.used));
  }

  lemma WholeStep(dec: bytes -> Decoded, s: bytes, limit: nat, offset: nat, m: Many)
    requires Advances(dec) && limit >= 1 && offset <= |s| && m == DecodeMany(dec, s[offset..], limit)
    ensures DecodeMany(dec, s[offset..], |s|) ==
      if m.Stop? || offset + m.used == |s| then m
      else Glue(m.vals, m.used, DecodeMany(dec, s[offset + m.used..], |s|))
  {
    var t := s[offset..];
    DecodeManyEnough(dec, t, |s|, limit);
    assert |s| + limit == limit + |s|;
    DecodeManySplit(dec, t, limit, |s|);
    if m.Good? {
      assert t[m.used..] == s[offset + m.used..];
      assert m.vals + [] == m.vals;
    }
  }

  /** Reading in pieces of any size gives what one full read of the remaining input gives, error or not. */
  lemma {:induction false} ResumeIsDecodeMany(dec: bytes -> Decoded, s: bytes, limit: nat, offset: nat)
    requires Advances(dec) && limit >= 1 && offset <= |s|
    ensures Resume(dec, s, limit, offset) == Finished(DecodeMany(dec, s[offset..], |s|))
    decreases |s| - offset
  {
    hide DecodeMany, Unpack;
    var m := DecodeMany(dec, s[offset..], limit);
    ResumeStep(dec, s, limit, offset, m);
    WholeStep(dec, s, limit, offset, m);
    if m.Good? && offset + m.used < |s| {
      ResumeIsDecodeMany(dec, s, limit, offset + m.used);
    }
  }

  /** For any input whatever, unpack_one and unpack_limit repeated until -1 give the same objects, or raise the
      same error, as one full unpack. */
  lemma ResumeIsUnpack(dec: bytes -> Decoded, s: bytes, limit: nat)
    requires Advances(dec) && 1 <= limit && |s| <= INT_MAX
    ensures Resume(dec, s, limit, 0) == Unpack(dec, s, 0, 0)
  {
    ResumeIsDecodeMany(dec, s, limit, 0);
    DecodeManyEnough(dec, s, |s|, INT_MAX - |s|);
    assert s[0..] == s;
  }

  lemma CodecResumes(s: bytes, limit: nat)
    requires 1 <= limit && |s| <= INT_MAX
    ensures Resume(Decode, s, limit, 0) == Unpack(Decode, s, 0, 0)
  {
    ResumeIsUnpack(Decode, s, limit);
  }

  // ---------------------------------------------------------------- growth over a run of appends

  /** From a fresh buffer, any run of appends leaves the concatenation, and all reallocations together carry over at
      most as many bytes as the capacity, which is at most twice what was appended. */
  method AppendAll(parts: seq<bytes>) returns (contents: bytes, capacity: nat, ghost carried: nat)
    ensures contents == Join(parts)
    ensures carried <= capacity <= 2 * |contents|
  {
    var buf := new MpBuf();
    var i := 0;
    while i < |parts|
      invariant i <= |parts|
      invariant buf.Valid() && fresh(buf) && fresh(buf.b)
      invariant buf.appended == |buf.Contents()| && buf.Contents() + Join(parts[i..]) == Join(parts)
    {
      assert parts[i..][1..] == parts[i + 1..];
      Associative(buf.Contents(), parts[i], Join(parts[i + 1..]));
      buf.Append(parts[i]);
      i := i + 1;
    }
    assert buf.Contents() + [] == buf.Contents();
    return buf.b[..buf.len], buf.b.Length, buf.carried;
  }

  // ---------------------------------------------------------------- packing arguments

  datatype Packed = NoArguments | String(s: bytes)

  /** Encodes each argument into one buffer that is emptied in between, and joins the pieces. */
  method Pack(args: seq<Lua>) returns (p: Packed)
    requires forall v :: v in args ==> Encodable(v)
    ensures p == if args == [] then NoArguments else String(Join(Pieces(args)))
  {
    if |args| == 0 {
      return NoArguments;
    }
    var buf := new MpBuf();
    var joined: bytes := [];
    ghost var parts := Pieces(args);
    var i := 0;
    while i < |args|
      invariant i <= |args|
      invariant buf.Valid() && fresh(buf) && fresh(buf.b)
      invariant buf.Contents() == []
      invariant joined + Join(parts[i..]) == Join(parts)
    {
      assert parts[i..][1..] == parts[i + 1..];
      Associative(joined, parts[i], Join(parts[i + 1..]));
      EncodeType(buf, args[i], 0);
      assert buf.Contents() == [] + parts[i] == parts[i];
      joined := joined + buf.b[..buf.len];
      buf.Reset();
      i := i + 1;
    }
    assert joined + [] == joined;
    return String(joined);
  }

  // ---------------------------------------------------------------- requests

  /** A request is refused exactly for a negative limit or offset, and an offset behind the input is said to be one. */
  lemma RefusedIff(dec: bytes -> Decoded, s: bytes, limit: int, offset: int)
    requires Advances(dec)
    ensures Unpack(dec, s, limit, offset) == BadRequest <==> offset < 0 || limit < 0
    ensures Unpack(dec, s, limit, offset) == PastEnd <==> offset > |s| && limit >= 0
  {
  }

  /** No more objects are read than asked for, and fewer only at the end of the input. */
  lemma {:induction false} AtMostLimit(dec: bytes -> Decoded, s: bytes, limit: nat)
    requires Advances(dec)
    ensures var m := DecodeMany(dec, s, limit);
      m.Good? ==> |m.vals| <= limit && (|m.vals| < limit ==> m.used == |s|)
    decreases |s|
  {
    if s != [] && limit != 0 && dec(s).Ok? {
      AtMostLimit(dec, s[dec(s).used..], limit - 1);
    }
  }

  lemma LimitIsKept(dec: bytes -> Decoded, s: bytes, limit: nat, offset: nat)
    requires Advances(dec) && offset <= |s| && (limit > 0 || offset > 0)
    ensures var u := Unpack(dec, s, limit, offset);
      u.Objects? ==> |u.vals| <= limit && (|u.vals| < limit ==> u.next == At(-1))
  {
    hide DecodeMany;
    AtMostLimit(dec, s[offset..], limit);
  }

  /** One object is the one at the offset, and the next offset is behind it. */
  lemma OneObject(s: bytes, offset: nat)
    requires offset < |s|
    ensures Unpack(Decode, s, 1, offset) ==
      match Decode(s[offset..])
      case Fail(e) => Raised(e)
      case Ok(v, n) => Objects([v], if offset + n == |s| then At(-1) else At(offset + n))
  {
    hide Decode;
    var t := s[offset..];
    if Decode(t).Ok? {
      assert DecodeMany(Decode, t[Decode(t).used..], 0) == Good([], 0);
      assert [Decode(t).v] + [] == [Decode(t).v];
    }
  }
}
