/** The parser of lua-cjson.c: which value a text stands for, and the code that moves over the text. The text is
    a byte string with a NUL after it, and a NUL inside it ends it too. */
module JsonParser {
  import opened Bytes
  import opened LuaValues
  import opened JsonUnicode
  import opened JsonString
  import opened JsonBuffer
  import opened JsonPrinter
  import opened Options

  /** Reads a number from the start of a text as the C library does: its value and the characters used, which
      are none when there is no number. It never passes the end of the text. */
  type NumberReader = bytes -> NumberRead

  datatype NumberRead = NumberRead(v: Lua, used: nat)

  datatype Token =
    | ObjBegin | ObjEnd | ArrBegin | ArrEnd | Colon | Comma | End
    | StringToken(s: bytes)
    | NumberToken(v: Lua)
    | BooleanToken(b: bool)
    | NullToken
    | BadString(e: StringError)
    | InvalidNumber
    | InvalidToken

  datatype Lexed = Lexed(token: Token, rest: bytes)

  predicate Whitespace(c: byte) {
    c == 32 || c == 9 || c == 10 || c == 13
  }

  function SingleToken(c: byte): Token {
    if c == 123 then ObjBegin else if c == 125 then ObjEnd else if c == 91 then ArrBegin
    else if c == 93 then ArrEnd else if c == 44 then Comma else if c == 58 then Colon else InvalidToken
  }

  /** The text starts with `word`, small letters or large. */
  predicate StartsWithLetters(s: bytes, word: bytes) {
    |word| <= |s| && forall i :: 0 <= i < |word| ==> s[i] == word[i] || s[i] as int + 32 == word[i]
  }

  const INF: bytes := [105, 110, 102]
  const NAN: bytes := [110, 97, 110]

  /** The other numbers that the C library reads and that are accepted: a plus sign, infinity, not a number. */
  predicate IsInvalidNumber(s: bytes)
    requires s != []
  {
    s[0] == 43 || StartsWithLetters(s, INF) || StartsWithLetters(s, NAN)
  }

  function LexNumber(num: NumberReader, s: bytes): Lexed {
    if 0 < num(s).used <= |s| then Lexed(NumberToken(num(s).v), s[num(s).used..]) else Lexed(InvalidNumber, s)
  }

  /** Tokens that need more than their first character. */
  function LexLong(num: NumberReader, s: bytes): (l: Lexed)
    requires s != []
    ensures |l.rest| <= |s|
    ensures l.token.StringToken? || l.token.NumberToken? || l.token.BooleanToken? || l.token.NullToken?
      ==> |l.rest| < |s|
  {
    var c := s[0];
    if c == QUOTE then
      (match ScanString(s[1..])
       case Broken(e) => Lexed(BadString(e), s)
       case Scanned(t, rest) => Lexed(StringToken(t), rest))
    else if c == 45 || 48 <= c <= 57 then LexNumber(num, s)
    else if TRUE <= s then Lexed(BooleanToken(true), s[4..])
    else if FALSE <= s then Lexed(BooleanToken(false), s[5..])
    else if NULL <= s then Lexed(NullToken, s[4..])
    else if c in [102, 105, 73, 110, 78, 116, 43] && IsInvalidNumber(s) then LexNumber(num, s)
    else Lexed(InvalidToken, s)
  }

  /** The next token and the text after it. */
  function Lex(num: NumberReader, s: bytes): (l: Lexed)
    ensures |l.rest| <= |s|
    ensures l.token.End? || l.token.BadString? || l.token.InvalidNumber? || l.token.InvalidToken? || |l.rest| < |s|
  {
    if s == [] || s[0] == 0 then Lexed(End, s)
    else if Whitespace(s[0]) then Lex(num, s[1..])
    else if SingleToken(s[0]) != InvalidToken then Lexed(SingleToken(s[0]), s[1..])
    else LexLong(num, s)
  }

  datatype Expectation = AValue | AKey | AColon | CommaOrObjectEnd | CommaOrArrayEnd | TheEnd

  datatype ParseError = TooNested | Expected(what: Expectation) | WideEncoding

  datatype Parsed = Value(v: Lua, rest: bytes) | Failed(e: ParseError)

  datatype ParsedSets = Sets(sets: seq<Assign>, rest: bytes) | SetsFailed(e: ParseError)

  function AsTable(p: ParsedSets): Parsed {
    match p
    case SetsFailed(e) => Failed(e)
    case Sets(sets, rest) => Value(Table(sets), rest)
  }

  function Before(first: seq<Assign>, p: ParsedSets): ParsedSets {
    match p
    case SetsFailed(e) => p
    case Sets(sets, rest) => Sets(first + sets, rest)
  }

  /** A value, inside `depth` arrays and objects. */
  function ParseValue(num: NumberReader, s: bytes, depth: nat): (p: Parsed)
    ensures p.Value? ==> |p.rest| < |s|
    decreases |s|, 0
  {
    var l := Lex(num, s);
    match l.token
    case StringToken(t) => Value(Str(t), l.rest)
    case NumberToken(v) => Value(v, l.rest)
    case BooleanToken(b) => Value(Bool(b), l.rest)
    case NullToken => Value(Null, l.rest)
    case ObjBegin => ParseObject(num, l.rest, depth)
    case ArrBegin => ParseArray(num, l.rest, depth)
    case _ => Failed(Expected(AValue))
  }

  function ParseObject(num: NumberReader, s: bytes, depth: nat): (p: Parsed)
    ensures p.Value? ==> |p.rest| < |s|
    decreases |s|, 3
  {
    if depth + 1 > MAX_DEPTH then Failed(TooNested)
    else if Lex(num, s).token == ObjEnd then Value(Table([]), Lex(num, s).rest)
    else AsTable(ParseMembers(num, s, depth + 1))
  }

  /** A key, a colon and a value. */
  function ParseMember(num: NumberReader, s: bytes, depth: nat): (p: ParsedSets)
    ensures p.Sets? ==> |p.rest| < |s|
    decreases |s|, 1
  {
    var k := Lex(num, s);
    if !k.token.StringToken? then SetsFailed(Expected(AKey)) else
      var c := Lex(num, k.rest);
      if c.token != Colon then SetsFailed(Expected(AColon)) else
        match ParseValue(num, c.rest, depth)
        case Failed(e) => SetsFailed(e)
        case Value(v, rest) => Sets([Assign(Str(k.token.s), v)], rest)
  }

  function ParseMembers(num: NumberReader, s: bytes, depth: nat): (p: ParsedSets)
    ensures p.Sets? ==> |p.rest| < |s|
    decreases |s|, 2
  {
    var m := ParseMember(num, s, depth);
    if m.SetsFailed? then m else
      var l := Lex(num, m.rest);
      if l.token == ObjEnd then Sets(m.sets, l.rest)
      else if l.token != Comma then SetsFailed(Expected(CommaOrObjectEnd))
      else Before(m.sets, ParseMembers(num, l.rest, depth))
  }

  function ParseArray(num: NumberReader, s: bytes, depth: nat): (p: Parsed)
    ensures p.Value? ==> |p.rest| < |s|
    decreases |s|, 3
  {
    if depth + 1 > MAX_DEPTH then Failed(TooNested)
    else if Lex(num, s).token == ArrEnd then Value(Table([]), Lex(num, s).rest)
    else AsTable(ParseElements(num, s, 1, depth + 1))
  }

  function ParseElements(num: NumberReader, s: bytes, i: nat, depth: nat): (p: ParsedSets)
    ensures p.Sets? ==> |p.rest| < |s|
    decreases |s|, 2
  {
    match ParseValue(num, s, depth)
    case Failed(e) => SetsFailed(e)
    case Value(v, rest) =>
      var l := Lex(num, rest);
      if l.token == ArrEnd then Sets([Assign(Int(i), v)], l.rest)
      else if l.token != Comma then SetsFailed(Expected(CommaOrArrayEnd))
      else Before([Assign(Int(i), v)], ParseElements(num, l.rest, i + 1, depth))
  }

  datatype Result = Success(v: Lua) | Failure(e: ParseError)

  function Decode(num: NumberReader, s: bytes): Result {
    if |s| >= 2 && (s[0] == 0 || s[1] == 0) then Failure(WideEncoding) else
      match ParseValue(num, s, 0)
      case Failed(e) => Failure(e)
      case Value(v, rest) => if Lex(num, rest).token == End then Success(v) else Failure(Expected(TheEnd))
  }

  // ---------------------------------------------------------------- moving over the text

  lemma BeforeNothing(p: ParsedSets)
    ensures Before([], p) == p
  {
    if p.Sets? {
      assert [] + p.sets == p.sets;
    }
  }

  lemma BeforeBefore(a: seq<Assign>, b: seq<Assign>, p: ParsedSets)
    ensures Before(a, Before(b, p)) == Before(a + b, p)
  {
    if p.Sets? {
      assert a + (b + p.sets) == a + b + p.sets;
    }
  }

  /** A turn of the array loop, with `sets` read so far. */
  lemma ElementsTurn(num: NumberReader, sets: seq<Assign>, s: bytes, i: nat, depth: nat)
    ensures Before(sets, ParseElements(num, s, i, depth)) ==
      var v := ParseValue(num, s, depth);
      if v.Failed? then SetsFailed(v.e) else
        var l, all := Lex(num, v.rest), sets + [Assign(Int(i), v.v)];
        if l.token == ArrEnd then Sets(all, l.rest)
        else if l.token != Comma then SetsFailed(Expected(CommaOrArrayEnd))
        else Before(all, ParseElements(num, l.rest, i + 1, depth))
  {
    hide Lex, ParseValue;
    var v := ParseValue(num, s, depth);
    if v.Value? {
      BeforeBefore(sets, [Assign(Int(i), v.v)], ParseElements(num, Lex(num, v.rest).rest, i + 1, depth));
    }
  }

  /** A turn of the object loop, with `sets` read so far. */
  lemma MembersTurn(num: NumberReader, sets: seq<Assign>, s: bytes, depth: nat)
    ensures Before(sets, ParseMembers(num, s, depth)) ==
      var m := ParseMember(num, s, depth);
      if m.SetsFailed? then m else
        var l, all := Lex(num, m.rest), sets + m.sets;
        if l.token == ObjEnd then Sets(all, l.rest)
        else if l.token != Comma then SetsFailed(Expected(CommaOrObjectEnd))
        else Before(all, ParseMembers(num, l.rest, depth))
  {
    hide Lex, ParseMember;
    var m := ParseMember(num, s, depth);
    if m.Sets? {
      BeforeBefore(sets, m.sets, ParseMembers(num, Lex(num, m.rest).rest, depth));
    }
  }

  predicate IsError(t: Token) {
    t.BadString? || t.InvalidNumber? || t.InvalidToken?
  }

  /** The ways a turn of the string loop can go. */
  lemma PieceCases(s: bytes)
    requires s == [] || s[0] != QUOTE
    ensures s == [] || s[0] == 0 ==> ScanPiece(s) == NoPiece(UnexpectedEnd)
    ensures s != [] && s[0] != 0 && s[0] != BACKSLASH ==> ScanPiece(s) == Piece([s[0]], 1)
    ensures s != [] && s[0] == BACKSLASH ==>
      var c := EscapeToChar(if |s| == 1 then 0 else s[1]);
      if c == 0 then ScanPiece(s) == NoPiece(InvalidEscape)
      else if c == 117 then
        |s| > 1 && s[1] == 117 && ScanPiece(s) ==
          match UnicodeEscape(s)
          case None => NoPiece(InvalidUnicodeEscape)
          case Some(e) => Piece(e.utf8, e.len)
      else |s| > 1 && ScanPiece(s) == Piece([c], 2)
  {
    hide UnicodeEscape;
  }

  /** The temporary string has room for the whole text. */
  class Parser {
    const data: bytes
    const num: NumberReader
    const tmp: StrBuf
    var ptr: nat
    var depth: nat

    ghost predicate Valid()
      reads this, tmp
    {
      ptr <= |data| && tmp.Valid() && |data| < tmp.size
    }

    ghost function Rest(): bytes
      reads this
      requires ptr <= |data|
    {
      data[ptr..]
    }

    constructor (text: bytes, reader: NumberReader)
      ensures Valid() && fresh(tmp) && fresh(tmp.buf)
      ensures data == text && num == reader && ptr == 0 && depth == 0
    {
      data, num, ptr, depth := text, reader, 0, 0;
      tmp := new StrBuf(|text|);
    }

    /** The character at a position, which may be the NUL after the text and is never beyond it. */
    function At(i: nat): byte
      requires i <= |data|
    {
      if i < |data| then data[i] else 0
    }

    /** Stops at the first character that is not a digit, so it does not pass the NUL. */
    method DecodeHex4At(at: nat) returns (n: int)
      requires at <= |data|
      ensures n == DecodeHex4(data[at..])
    {
      var i := 0;
      var digit: seq<int> := [];
      while i < 4
        invariant i <= 4 && |digit| == i && at + i <= |data|
        invariant forall k :: 0 <= k < i ==> digit[k] == HexDigitToInt(data[at..][k]) >= 0
      {
        assert at + i < |data| ==> At(at + i) == data[at..][i];
        digit := digit + [HexDigitToInt(At(at + i))];
        if digit[i] < 0 {
          return -1;
        }
        i := i + 1;
      }
      return digit[0] * 0x1000 + digit[1] * 0x100 + digit[2] * 0x10 + digit[3];
    }

    /** At a backslash and a u: appends the UTF-8 of the escape and moves over it. */
    method AppendUnicodeEscape() returns (ok: bool)
      requires Valid() && ptr + 2 <= |data| && tmp.EmptyLength() >= |data| - ptr
      modifies this`ptr, tmp`length, tmp.buf
      ensures Valid()
      ensures match UnicodeEscape(old(Rest()))
        case None => !ok && ptr == old(ptr) && tmp.Contents() == old(tmp.Contents())
        case Some(e) => ok && ptr == old(ptr) + e.len && tmp.Contents() == old(tmp.Contents()) + e.utf8
    {
      hide DecodeHex4, CodepointToUtf8;
      assert data[ptr + 2..] == Rest()[2..];
      var codepoint := DecodeHex4At(ptr + 2);
      if codepoint < 0 {
        return false;
      }
      var escapeLen := 6;
      if codepoint / 0x800 == 0x1b {
        if codepoint / 0x400 % 2 == 1 {
          return false;
        }
        if At(ptr + 6) != BACKSLASH || At(ptr + 7) != 117 {
          return false;
        }
        assert data[ptr + 8..] == Rest()[8..];
        var low := DecodeHex4At(ptr + 8);
        if low < 0 || low / 0x400 != 0x37 {
          return false;
        }
        codepoint := codepoint % 0x400 * 0x400 + low % 0x400 + 0x1_0000;
        escapeLen := 12;
      }
      tmp.AppendMemUnsafe(CodepointToUtf8(codepoint));
      ptr := ptr + escapeLen;
      return true;
    }

    /** One character or escape of a string: appends what it stands for and moves over it, or says what is wrong. */
    method NextPiece() returns (error: Option<StringError>)
      requires Valid() && At(ptr) != QUOTE && tmp.EmptyLength() >= |data| - ptr
      modifies this`ptr, tmp`length, tmp.buf
      ensures Valid() && ptr >= old(ptr)
      ensures match ScanPiece(old(Rest()))
        case NoPiece(e) => error == Some(e)
        case Piece(text, n) =>
          error == None && ptr == old(ptr) + n && tmp.Contents() == old(tmp.Contents()) + text
    {
      hide UnicodeEscape, ScanPiece, EscapeToChar;
      PieceCases(Rest());
      var ch := At(ptr);
      if ch == 0 {
        return Some(UnexpectedEnd);
      }
      if ch == BACKSLASH {
        ch := EscapeToChar(At(ptr + 1));
        if ch == 117 {
          var ok := AppendUnicodeEscape();
          return if ok then None else Some(InvalidUnicodeEscape);
        }
        if ch == 0 {
          return Some(InvalidEscape);
        }
        ptr := ptr + 1;
      }
      tmp.AppendCharUnsafe(ch);
      ptr := ptr + 1;
      return None;
    }

    /** At a quote: decodes the string into the temporary one, without checking its size. */
    method NextStringToken() returns (t: Token)
      requires Valid() && ptr < |data|
      modifies this`ptr, tmp`length, tmp.buf
      ensures Valid() && ptr >= old(ptr)
      ensures match ScanString(old(Rest())[1..])
        case Broken(e) => t == BadString(e)
        case Scanned(text, rest) => t == StringToken(text) && Rest() == rest
    {
      hide ScanString, Onto, ScanPiece;
      ptr := ptr + 1;
      tmp.Reset();
      ghost var start, whole := ptr, ScanString(Rest());
      OntoNothing(whole);
      while At(ptr) != QUOTE
        invariant Valid() && ptr >= start && tmp.length <= ptr - start
        invariant Onto(tmp.Contents(), ScanString(Rest())) == whole
        decreases |data| - ptr
      {
        ghost var here, at := Rest(), ptr;
        ScanTurn(tmp.Contents(), here);
        var error := NextPiece();
        if error.Some? {
          return BadString(error.value);
        }
        assert Rest() == here[ptr - at..];
      }
      ScanEnd(tmp.Contents(), Rest());
      ptr := ptr + 1;
      tmp.EnsureNull();
      return StringToken(tmp.buf[..tmp.length]);
    }

    method NextNumberToken() returns (t: Token)
      requires Valid()
      modifies this`ptr
      ensures Valid() && ptr >= old(ptr)
      ensures var l := LexNumber(num, old(Rest())); t == l.token && Rest() == l.rest
    {
      var n := num(data[ptr..]);
      if 0 < n.used <= |data| - ptr {
        ptr := ptr + n.used;
        return NumberToken(n.v);
      }
      return InvalidNumber;
    }

    predicate Sees(word: bytes)
      reads this
      requires ptr <= |data|
      ensures Sees(word) <==> word <= Rest()
    {
      ptr + |word| <= |data| && data[ptr..ptr + |word|] == word
    }

    method NextLongToken() returns (t: Token)
      requires Valid() && ptr < |data|
      modifies this`ptr, tmp`length, tmp.buf
      ensures Valid() && ptr >= old(ptr)
      ensures var l := LexLong(num, old(Rest())); t == l.token && (!IsError(t) ==> Rest() == l.rest)
    {
      hide ScanString;
      var ch := data[ptr];
      if ch == QUOTE {
        t := NextStringToken();
      } else if ch == 45 || 48 <= ch <= 57 {
        t := NextNumberToken();
      } else if Sees(TRUE) {
        t, ptr := BooleanToken(true), ptr + 4;
      } else if Sees(FALSE) {
        t, ptr := BooleanToken(false), ptr + 5;
      } else if Sees(NULL) {
        t, ptr := NullToken, ptr + 4;
      } else if ch in [102, 105, 73, 110, 78, 116, 43] && IsInvalidNumber(data[ptr..]) {
        t := NextNumberToken();
      } else {
        t := InvalidToken;
      }
    }

    method NextToken() returns (t: Token)
      requires Valid()
      modifies this`ptr, tmp`length, tmp.buf
      ensures Valid() && ptr >= old(ptr)
      ensures var l := Lex(num, old(Rest())); t == l.token && (!IsError(t) ==> Rest() == l.rest)
    {
      hide LexLong;
      ghost var whole := Lex(num, Rest());
      while Whitespace(At(ptr))
        invariant Valid() && ptr >= old(ptr) && Lex(num, Rest()) == whole
        decreases |data| - ptr
      {
        assert Rest()[1..] == data[ptr + 1..];
        ptr := ptr + 1;
      }
      var ch := At(ptr);
      if ch == 0 {
        t := End;
      } else if SingleToken(ch) != InvalidToken {
        t, ptr := SingleToken(ch), ptr + 1;
      } else {
        t := NextLongToken();
      }
    }

    /** After the opening brace. The depth counter is what it was when an object has been read. */
    method ParseObjectContext() returns (r: Result)
      requires Valid()
      modifies this, tmp`length, tmp.buf
      ensures Valid() && ptr >= old(ptr)
      ensures match ParseObject(num, old(Rest()), old(depth))
        case Failed(e) => r == Failure(e)
        case Value(v, rest) => r == Success(v) && Rest() == rest && depth == old(depth)
      decreases |data| - ptr, 3
    {
      hide Lex, ParseMember, ParseMembers, Before;
      depth := depth + 1;
      if depth > MAX_DEPTH {
        return Failure(TooNested);
      }
      ghost var from, whole := Rest(), ParseMembers(num, Rest(), depth);
      var token := NextToken();
      if token == ObjEnd {
        depth := depth - 1;
        return Success(Table([]));
      }
      var sets: seq<Assign> := [];
      BeforeNothing(whole);
      while true
        invariant Valid() && depth == old(depth) + 1 && ptr >= old(ptr)
        invariant |from| <= |data| - old(ptr)
        invariant token == Lex(num, from).token && (!IsError(token) ==> Rest() == Lex(num, from).rest)
        invariant Before(sets, ParseMembers(num, from, depth)) == whole
        decreases |from|
      {
        MembersTurn(num, sets, from, depth);
        var m := ParseMemberContext(from, token);
        if m.MemberFailed? {
          return Failure(m.e);
        }
        sets := sets + [m.member];
        ghost var after := Rest();
        token := NextToken();
        if token == ObjEnd {
          depth := depth - 1;
          return Success(Table(sets));
        }
        if token != Comma {
          return Failure(Expected(CommaOrObjectEnd));
        }
        from := Rest();
        token := NextToken();
      }
    }

    /** The key has just been read; `from` is where it began. */
    method ParseMemberContext(ghost from: bytes, key: Token) returns (m: Member)
      requires Valid() && |from| <= |data|
      requires key == Lex(num, from).token && (!IsError(key) ==> Rest() == Lex(num, from).rest)
      modifies this, tmp`length, tmp.buf
      ensures Valid() && ptr >= old(ptr)
      ensures match ParseMember(num, from, old(depth))
        case SetsFailed(e) => m == MemberFailed(e)
        case Sets(sets, rest) => m.Member? && sets == [m.member] && Rest() == rest && depth == old(depth)
      decreases |from|, 1
    {
      hide Lex, ParseValue;
      if !key.StringToken? {
        return MemberFailed(Expected(AKey));
      }
      var token := NextToken();
      if token != Colon {
        return MemberFailed(Expected(AColon));
      }
      ghost var at := Rest();
      token := NextToken();
      var r := ProcessValue(at, token);
      if r.Failure? {
        return MemberFailed(r.e);
      }
      return Member(Assign(Str(key.s), r.v));
    }

    /** After the opening bracket. */
    method ParseArrayContext() returns (r: Result)
      requires Valid()
      modifies this, tmp`length, tmp.buf
      ensures Valid() && ptr >= old(ptr)
      ensures match ParseArray(num, old(Rest()), old(depth))
        case Failed(e) => r == Failure(e)
        case Value(v, rest) => r == Success(v) && Rest() == rest && depth == old(depth)
      decreases |data| - ptr, 3
    {
      hide Lex, ParseValue, ParseElements, Before;
      depth := depth + 1;
      if depth > MAX_DEPTH {
        return Failure(TooNested);
      }
      ghost var from, whole := Rest(), ParseElements(num, Rest(), 1, depth);
      var token := NextToken();
      if token == ArrEnd {
        depth := depth - 1;
        return Success(Table([]));
      }
      var sets: seq<Assign> := [];
      var i := 1;
      BeforeNothing(whole);
      while true
        invariant Valid() && depth == old(depth) + 1 && ptr >= old(ptr)
        invariant |from| <= |data| - old(ptr)
        invariant token == Lex(num, from).token && (!IsError(token) ==> Rest() == Lex(num, from).rest)
        invariant Before(sets, ParseElements(num, from, i, depth)) == whole
        decreases |from|
      {
        ElementsTurn(num, sets, from, i, depth);
        var v := ProcessValue(from, token);
        if v.Failure? {
          return Failure(v.e);
        }
        sets := sets + [Assign(Int(i), v.v)];
        token := NextToken();
        if token == ArrEnd {
          depth := depth - 1;
          return Success(Table(sets));
        }
        if token != Comma {
          return Failure(Expected(CommaOrArrayEnd));
        }
        from := Rest();
        token := NextToken();
        i := i + 1;
      }
    }

    /** The value whose first token has just been read; `from` is where that began. */
    method ProcessValue(ghost from: bytes, token: Token) returns (r: Result)
      requires Valid() && |from| <= |data|
      requires token == Lex(num, from).token && (!IsError(token) ==> Rest() == Lex(num, from).rest)
      modifies this, tmp`length, tmp.buf
      ensures Valid() && ptr >= old(ptr)
      ensures match ParseValue(num, from, old(depth))
        case Failed(e) => r == Failure(e)
        case Value(v, rest) => r == Success(v) && Rest() == rest && depth == old(depth)
      decreases |from|, 0
    {
      hide Lex, ParseObject, ParseArray;
      match token
      case StringToken(s) => r := Success(Str(s));
      case NumberToken(n) => r := Success(n);
      case BooleanToken(b) => r := Success(Bool(b));
      case NullToken => r := Success(Null);
      case ObjBegin => r := ParseObjectContext();
      case ArrBegin => r := ParseArrayContext();
      case _ => r := Failure(Expected(AValue));
    }
  }

  datatype Member = Member(member: Assign) | MemberFailed(e: ParseError)

  lemma ScanEnd(t: bytes, s: bytes)
    requires s != [] && s[0] == QUOTE
    ensures Onto(t, ScanString(s)) == Scanned(t, s[1..])
  {
    assert t + [] == t;
  }

  /** Decodes a text for any reader of numbers. No access is outside the text and its NUL, or outside the
      temporary string. */
  method DecodeText(num: NumberReader, text: bytes) returns (r: Result)
    ensures r == Decode(num, text)
  {
    hide Lex, ParseValue;
    if |text| >= 2 && (text[0] == 0 || text[1] == 0) {
      return Failure(WideEncoding);
    }
    var json := new Parser(text, num);
    assert json.Rest() == text;
    var token := json.NextToken();
    r := json.ProcessValue(text, token);
    if r.Failure? {
      return;
    }
    token := json.NextToken();
    if token != End {
      return Failure(Expected(TheEnd));
    }
  }
}
