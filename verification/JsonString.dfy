/** JSON strings in lua-cjson.c: the escape tables, quoting, and scanning a quoted string. */
module JsonString {
  import opened Bytes
  import opened JsonUnicode
  import opened Options

  const QUOTE: byte := 34
  const BACKSLASH: byte := 92

  function HexDigit(n: nat): byte
    requires n < 16
  {
    if n < 10 then 48 + n else 87 + n
  }

  /** The letter of a two-character escape, or 0 when the character has none. */
  function ShortEscape(c: byte): byte {
    if c == 8 then 98 else if c == 9 then 116 else if c == 10 then 110 else if c == 12 then 102
    else if c == 13 then 114 else if c == QUOTE || c == 47 || c == BACKSLASH then c else 0
  }

  /** What stands for one character in a printed string. */
  function EscapeOf(c: byte): (s: bytes)
    ensures 1 <= |s| <= 6
  {
    if ShortEscape(c) != 0 then [BACKSLASH, ShortEscape(c)]
    else if c < 32 || c == 127 then [BACKSLASH, 117, 48, 48, HexDigit(c / 16), HexDigit(c % 16)]
    else [c]
  }

  function Escaped(s: bytes): (e: bytes)
    ensures |e| <= 6 * |s|
  {
    if s == [] then [] else Escaped(s[..|s| - 1]) + EscapeOf(s[|s| - 1])
  }

  function Quoted(s: bytes): (q: bytes)
    ensures |q| <= 6 * |s| + 2
  {
    [QUOTE] + Escaped(s) + [QUOTE]
  }

  /** The character that an escape letter stands for; 117 sends for a unicode escape and 0 is an error. */
  function EscapeToChar(c: byte): byte {
    if c == QUOTE || c == BACKSLASH || c == 47 || c == 117 then c
    else if c == 98 then 8 else if c == 116 then 9 else if c == 110 then 10 else if c == 102 then 12
    else if c == 114 then 13 else 0
  }

  datatype StringError = UnexpectedEnd | InvalidUnicodeEscape | InvalidEscape

  datatype Scanned = Scanned(text: bytes, rest: bytes) | Broken(e: StringError)

  /** One character or escape of a string body: what it stands for, and how much input it takes. */
  datatype Piece = Piece(text: bytes, len: nat) | NoPiece(e: StringError)

  function ScanPiece(s: bytes): (p: Piece)
    ensures p.Piece? ==> 0 < |p.text| <= p.len <= |s|
  {
    if s == [] || s[0] == 0 then NoPiece(UnexpectedEnd)
    else if s[0] != BACKSLASH then Piece([s[0]], 1)
    else
      var c := if |s| == 1 then 0 else EscapeToChar(s[1]);
      if c == 117 then
        match UnicodeEscape(s)
        case None => NoPiece(InvalidUnicodeEscape)
        case Some(e) => Piece(e.utf8, e.len)
      else if c == 0 then NoPiece(InvalidEscape)
      else Piece([c], 2)
  }

  /** The string up to its closing quote; `s` starts after the opening one. What was decoded is shorter than
      what was read, so a buffer with room for the whole input has room for every string in it. */
  function ScanString(s: bytes): (r: Scanned)
    ensures r.Scanned? ==> |r.text| + |r.rest| < |s|
    decreases |s|
  {
    if s != [] && s[0] == QUOTE then Scanned([], s[1..]) else
      var p := ScanPiece(s);
      if p.NoPiece? then Broken(p.e) else Onto(p.text, ScanString(s[p.len..]))
  }

  function Onto(t: bytes, r: Scanned): Scanned {
    match r
    case Broken(e) => r
    case Scanned(u, rest) => Scanned(t + u, rest)
  }

  lemma OntoNothing(r: Scanned)
    ensures Onto([], r) == r
  {
    if r.Scanned? {
      assert [] + r.text == r.text;
    }
  }

  lemma OntoOnto(t: bytes, u: bytes, r: Scanned)
    ensures Onto(t, Onto(u, r)) == Onto(t + u, r)
  {
    if r.Scanned? {
      assert t + (u + r.text) == t + u + r.text;
    }
  }

  /** A turn of the scanning loop, with `t` decoded so far. */
  lemma ScanTurn(t: bytes, s: bytes)
    requires s == [] || s[0] != QUOTE
    ensures var p := ScanPiece(s);
      Onto(t, ScanString(s)) == if p.NoPiece? then Broken(p.e) else Onto(t + p.text, ScanString(s[p.len..]))
  {
    hide ScanPiece;
    if ScanPiece(s).Piece? {
      var p := ScanPiece(s);
      OntoOnto(t, p.text, ScanString(s[p.len..]));
    }
  }

  lemma HexDigitsReadBack(c: byte)
    ensures DecodeHex4([48, 48, HexDigit(c / 16), HexDigit(c % 16)]) == c
  {
  }

  lemma {:induction false} DecodeHex4Front(s: bytes, r: bytes)
    requires |s| == 4
    ensures DecodeHex4(s + r) == DecodeHex4(s)
  {
  }

  /** Every byte is read back from what it is printed as, whatever follows. */
  lemma PieceReadsBack(c: byte, r: bytes)
    ensures EscapeOf(c)[0] != QUOTE && (c != 0 || |EscapeOf(c)| == 6)
    ensures ScanPiece(EscapeOf(c) + r) == Piece([c], |EscapeOf(c)|)
  {
    var e := EscapeOf(c);
    assert forall i :: 0 <= i < |e| ==> (e + r)[i] == e[i];
    if |e| == 6 {
      assert (e + r)[2..] == e[2..] + r;
      HexDigitsReadBack(c);
      DecodeHex4Front(e[2..], r);
      assert e[2..] == [48, 48, HexDigit(c / 16), HexDigit(c % 16)];
      assert DecodeHex4((e + r)[2..]) == c;
      hide DecodeHex4;
    }
  }

  lemma ScanStringStep(c: byte, r: bytes)
    ensures ScanString(EscapeOf(c) + r) == Onto([c], ScanString(r))
  {
    PieceReadsBack(c, r);
    hide ScanPiece, EscapeOf;
    assert (EscapeOf(c) + r)[0] == EscapeOf(c)[0];
    assert (EscapeOf(c) + r)[|EscapeOf(c)|..] == r;
  }

  lemma {:induction false} EscapedReadsBack(s: bytes, r: bytes)
    ensures ScanString(Escaped(s) + r) == Onto(s, ScanString(r))
    decreases |s|
  {
    hide ScanString, EscapeOf, Onto;
    if s == [] {
      OntoNothing(ScanString(r));
      assert Escaped(s) + r == r;
    } else {
      var init, c := s[..|s| - 1], s[|s| - 1];
      assert Escaped(s) + r == Escaped(init) + (EscapeOf(c) + r);
      EscapedReadsBack(init, EscapeOf(c) + r);
      ScanStringStep(c, r);
      OntoOnto(init, [c], ScanString(r));
      assert init + [c] == s;
    }
  }

  /** Scanning undoes quoting, for every byte string and whatever follows. */
  lemma QuotedReadsBack(s: bytes, r: bytes)
    ensures Quoted(s) != [] && (Quoted(s) + r)[0] == QUOTE
    ensures ScanString((Quoted(s) + r)[1..]) == Scanned(s, r)
  {
    var tail := [QUOTE] + r;
    assert (Quoted(s) + r)[1..] == Escaped(s) + tail;
    EscapedReadsBack(s, tail);
    assert tail[1..] == r && s + [] == s;
  }

  /** A printed string is ASCII apart from the bytes above 127 it copies, and has no NUL. */
  lemma {:induction false} EscapedHasNoNul(s: bytes)
    ensures 0 !in Escaped(s)
  {
    if s != [] {
      EscapedHasNoNul(s[..|s| - 1]);
      assert 0 !in EscapeOf(s[|s| - 1]);
    }
  }
}
