/** A NUL inside a JSON document: the parser takes it for the end of the text. */
module JsonNul {
  import opened Bytes
  import opened LuaValues
  import opened JsonUnicode
  import opened JsonString
  import opened JsonPrinter
  import opened JsonParser
  import opened JsonRoundTrip

  /** The reader of numbers does not look past a NUL. */
  ghost predicate StopsAtNul(num: NumberReader) {
    forall s: bytes, t: bytes :: 0 !in s ==> num(s + ([0] + t)) == num(s)
  }

  /** The reader does not use more than there is. */
  ghost predicate StaysInText(num: NumberReader) {
    forall s: bytes :: num(s).used <= |s|
  }

  /** The text goes on with a NUL. */
  predicate IsNul(z: bytes) {
    z != [] && z[0] == 0
  }

  lemma {:induction false} LeadingDigitsStop(s: bytes, z: bytes)
    requires IsNul(z)
    ensures LeadingDigits(s + z) == LeadingDigits(s)
  {
    if s == [] {
      assert s + z == z;
    } else {
      assert (s + z)[1..] == s[1..] + z;
      LeadingDigitsStop(s[1..], z);
    }
  }

  /** The decimal reader is of that kind. */
  lemma PlainReadStopsAtNul()
    ensures StopsAtNul(PlainRead) && StaysInText(PlainRead)
  {
    forall s: bytes, t: bytes | 0 !in s
      ensures PlainRead(s + ([0] + t)) == PlainRead(s)
    {
      var z := [0] + t;
      var from := if s != [] && s[0] == 45 then 1 else 0;
      assert (s + z)[from..] == s[from..] + z;
      LeadingDigitsStop(s[from..], z);
      var k := LeadingDigits(s[from..]);
      assert (s + z)[from..from + k] == s[from..from + k];
    }
  }

  lemma HexStops(s: bytes, z: bytes)
    requires IsNul(z)
    ensures DecodeHex4(s + z) == DecodeHex4(s)
  {
    if |s| < 4 {
      assert (s + z)[|s|] == 0 && HexDigitToInt(0) == -1;
    }
  }

  lemma EscapeStops(s: bytes, z: bytes)
    requires IsNul(z) && |s| >= 2
    ensures UnicodeEscape(s + z) == UnicodeEscape(s)
  {
    hide DecodeHex4, CodepointToUtf8;
    assert (s + z)[2..] == s[2..] + z;
    HexStops(s[2..], z);
    if |s| >= 8 {
      assert (s + z)[8..] == s[8..] + z;
      HexStops(s[8..], z);
    } else if |s| >= 6 {
      assert (s + z)[|s|] == 0;
    }
  }

  lemma PieceStops(s: bytes, z: bytes)
    requires IsNul(z) && 0 !in s
    ensures ScanPiece(s + z) == ScanPiece(s)
  {
    hide UnicodeEscape;
    if s == [] {
      assert s + z == z;
    } else {
      assert (s + z)[0] == s[0];
      if |s| == 1 {
        assert (s + z)[1] == 0;
      } else {
        assert (s + z)[1] == s[1];
        EscapeStops(s, z);
      }
    }
  }

  function WithTail(r: Scanned, z: bytes): Scanned {
    if r.Scanned? then Scanned(r.text, r.rest + z) else r
  }

  lemma {:induction false} StringStops(s: bytes, z: bytes)
    requires IsNul(z) && 0 !in s
    ensures ScanString(s + z) == WithTail(ScanString(s), z)
    ensures ScanString(s).Scanned? ==> 0 !in ScanString(s).rest
    decreases |s|
  {
    hide ScanPiece;
    PieceStops(s, z);
    if s == [] {
      assert s + z == z;
      EndOfString(z);
      EndOfString([]);
    } else if s[0] == QUOTE {
      assert (s + z)[1..] == s[1..] + z;
    } else {
      var p := ScanPiece(s);
      if p.Piece? {
        assert (s + z)[p.len..] == s[p.len..] + z;
        StringStops(s[p.len..], z);
      }
    }
  }

  lemma EndOfString(s: bytes)
    requires s == [] || s[0] == 0
    ensures ScanString(s) == Broken(UnexpectedEnd) && ScanPiece(s) == NoPiece(UnexpectedEnd)
  {
  }

  lemma WordStops(word: bytes, s: bytes, z: bytes)
    requires IsNul(z) && 0 !in word
    ensures word <= s + z <==> word <= s
  {
    if |word| <= |s| {
      assert (s + z)[..|word|] == s[..|word|];
    } else {
      assert (s + z)[|s|] == 0;
      assert word[|s|] in word;
    }
  }

  lemma LettersStop(word: bytes, s: bytes, z: bytes)
    requires IsNul(z) && forall c :: c in word ==> c > 32
    ensures StartsWithLetters(s + z, word) <==> StartsWithLetters(s, word)
  {
    assert forall i :: 0 <= i < |s| ==> (s + z)[i] == s[i];
    assert (s + z)[|s|] == 0;
    if |s| < |word| {
      assert word[|s|] in word;
    }
  }

  lemma NumberStops(num: NumberReader, s: bytes, z: bytes)
    requires StopsAtNul(num) && StaysInText(num) && IsNul(z) && 0 !in s
    ensures num(s + z) == num(s) && num(s).used <= |s|
  {
    assert z == [0] + z[1..];
  }

  function LexedWithTail(l: Lexed, z: bytes): Lexed {
    Lexed(l.token, l.rest + z)
  }

  lemma LexNumberStops(num: NumberReader, s: bytes, z: bytes)
    requires num(s + z) == num(s) && num(s).used <= |s| && 0 !in s
    ensures LexNumber(num, s + z) == LexedWithTail(LexNumber(num, s), z)
    ensures 0 !in LexNumber(num, s).rest
  {
    var n := num(s).used;
    assert (s + z)[n..] == s[n..] + z;
  }

  lemma LexLongStops(num: NumberReader, s: bytes, z: bytes)
    requires StopsAtNul(num) && StaysInText(num) && IsNul(z) && 0 !in s && s != []
    ensures LexLong(num, s + z) == LexedWithTail(LexLong(num, s), z)
    ensures 0 !in LexLong(num, s).rest
  {
    hide ScanString, LexNumber, StartsWithLetters, StopsAtNul, StaysInText;
    assert (s + z)[0] == s[0];
    if s[0] == QUOTE {
      assert (s + z)[1..] == s[1..] + z;
      StringStops(s[1..], z);
    } else {
      NumberStops(num, s, z);
      LexNumberStops(num, s, z);
      WordStops(TRUE, s, z);
      WordStops(FALSE, s, z);
      WordStops(NULL, s, z);
      LettersStop(INF, s, z);
      LettersStop(NAN, s, z);
      assert |s| >= 4 ==> (s + z)[4..] == s[4..] + z;
      assert |s| >= 5 ==> (s + z)[5..] == s[5..] + z;
    }
  }

  lemma {:induction false} LexStops(num: NumberReader, s: bytes, z: bytes)
    requires StopsAtNul(num) && StaysInText(num) && IsNul(z) && 0 !in s
    ensures Lex(num, s + z) == LexedWithTail(Lex(num, s), z)
    ensures 0 !in Lex(num, s).rest
    decreases |s|
  {
    hide LexLong, StopsAtNul, StaysInText;
    if s == [] {
      assert s + z == z;
    } else {
      assert (s + z)[0] == s[0] && (s + z)[1..] == s[1..] + z;
      if Whitespace(s[0]) {
        LexStops(num, s[1..], z);
      } else if SingleToken(s[0]) == InvalidToken {
        LexLongStops(num, s, z);
      }
    }
  }

  // ---------------------------------------------------------------- values

  function ValueWithTail(p: Parsed, z: bytes): Parsed {
    if p.Value? then Value(p.v, p.rest + z) else p
  }

  function SetsWithTail(p: ParsedSets, z: bytes): ParsedSets {
    if p.Sets? then Sets(p.sets, p.rest + z) else p
  }

  ghost predicate ValueStops(num: NumberReader, s: bytes, depth: nat, z: bytes) {
    var p := ParseValue(num, s, depth);
    ParseValue(num, s + z, depth) == ValueWithTail(p, z) && (p.Value? ==> 0 !in p.rest)
  }

  ghost predicate MemberStops(num: NumberReader, s: bytes, depth: nat, z: bytes) {
    var p := ParseMember(num, s, depth);
    ParseMember(num, s + z, depth) == SetsWithTail(p, z) && (p.Sets? ==> 0 !in p.rest)
  }

  ghost predicate MembersStop(num: NumberReader, s: bytes, depth: nat, z: bytes) {
    var p := ParseMembers(num, s, depth);
    ParseMembers(num, s + z, depth) == SetsWithTail(p, z) && (p.Sets? ==> 0 !in p.rest)
  }

  ghost predicate ElementsStop(num: NumberReader, s: bytes, i: nat, depth: nat, z: bytes) {
    var p := ParseElements(num, s, i, depth);
    ParseElements(num, s + z, i, depth) == SetsWithTail(p, z) && (p.Sets? ==> 0 !in p.rest)
  }

  lemma {:induction false} ParseValueStops(num: NumberReader, s: bytes, depth: nat, z: bytes)
    requires StopsAtNul(num) && StaysInText(num) && IsNul(z) && 0 !in s
    ensures ValueStops(num, s, depth, z)
    decreases |s|, 0
  {
    hide Lex, StopsAtNul, StaysInText, ParseMembers, ParseElements, MembersStop, ElementsStop;
    LexStops(num, s, z);
    var l := Lex(num, s);
    if l.token == ObjBegin {
      ObjectStops(num, l.rest, depth, z);
    } else if l.token == ArrBegin {
      ArrayStops(num, l.rest, depth, z);
    }
  }

  lemma {:induction false} ObjectStops(num: NumberReader, s: bytes, depth: nat, z: bytes)
    requires StopsAtNul(num) && StaysInText(num) && IsNul(z) && 0 !in s
    ensures ParseObject(num, s + z, depth) == ValueWithTail(ParseObject(num, s, depth), z)
    ensures ParseObject(num, s, depth).Value? ==> 0 !in ParseObject(num, s, depth).rest
    decreases |s|, 3
  {
    hide Lex, StopsAtNul, StaysInText, ParseMembers;
    LexStops(num, s, z);
    ParseMembersStops(num, s, depth + 1, z);
  }

  lemma {:induction false} ArrayStops(num: NumberReader, s: bytes, depth: nat, z: bytes)
    requires StopsAtNul(num) && StaysInText(num) && IsNul(z) && 0 !in s
    ensures ParseArray(num, s + z, depth) == ValueWithTail(ParseArray(num, s, depth), z)
    ensures ParseArray(num, s, depth).Value? ==> 0 !in ParseArray(num, s, depth).rest
    decreases |s|, 3
  {
    hide Lex, StopsAtNul, StaysInText, ParseElements;
    LexStops(num, s, z);
    ParseElementsStops(num, s, 1, depth + 1, z);
  }

  lemma {:induction false} ParseMemberStops(num: NumberReader, s: bytes, depth: nat, z: bytes)
    requires StopsAtNul(num) && StaysInText(num) && IsNul(z) && 0 !in s
    ensures MemberStops(num, s, depth, z)
    decreases |s|, 1
  {
    hide Lex, StopsAtNul, StaysInText, ParseValue;
    LexStops(num, s, z);
    var k := Lex(num, s);
    if k.token.StringToken? {
      LexStops(num, k.rest, z);
      var c := Lex(num, k.rest);
      if c.token == Colon {
        ParseValueStops(num, c.rest, depth, z);
      }
    }
  }

  lemma {:induction false} ParseMembersStops(num: NumberReader, s: bytes, depth: nat, z: bytes)
    requires StopsAtNul(num) && StaysInText(num) && IsNul(z) && 0 !in s
    ensures MembersStop(num, s, depth, z)
    decreases |s|, 2
  {
    hide Lex, StopsAtNul, StaysInText, ParseMember;
    ParseMemberStops(num, s, depth, z);
    var m := ParseMember(num, s, depth);
    if m.Sets? {
      LexStops(num, m.rest, z);
      var l := Lex(num, m.rest);
      if l.token == Comma {
        ParseMembersStops(num, l.rest, depth, z);
      }
    }
  }

  lemma {:induction false} ParseElementsStops(num: NumberReader, s: bytes, i: nat, depth: nat, z: bytes)
    requires StopsAtNul(num) && StaysInText(num) && IsNul(z) && 0 !in s
    ensures ElementsStop(num, s, i, depth, z)
    decreases |s|, 2
  {
    hide Lex, StopsAtNul, StaysInText, ParseValue;
    ParseValueStops(num, s, depth, z);
    var v := ParseValue(num, s, depth);
    if v.Value? {
      LexStops(num, v.rest, z);
      var l := Lex(num, v.rest);
      if l.token == Comma {
        ParseElementsStops(num, l.rest, i + 1, depth, z);
      }
    }
  }

  // ---------------------------------------------------------------- whole texts

  /** A NUL behind the first two bytes ends the text: what follows it does not matter. */
  lemma NulEndsText(num: NumberReader, s: bytes, t: bytes)
    requires StopsAtNul(num) && StaysInText(num) && |s| >= 2 && 0 !in s
    ensures Decode(num, s + [0] + t) == Decode(num, s)
  {
    hide StopsAtNul, StaysInText, ParseValue, Lex;
    var z := [0] + t;
    Associative(s, [0], t);
    assert (s + z)[0] == s[0] && (s + z)[1] == s[1] && s[0] in s && s[1] in s;
    ParseValueStops(num, s, 0, z);
    var p := ParseValue(num, s, 0);
    if p.Value? {
      LexStops(num, p.rest, z);
    }
  }

  /** The text has ended after `k` bytes: these are whitespace, and then there is nothing or a NUL. */
  ghost predicate EndsAt(s: bytes, k: nat) {
    k <= |s| && (forall i :: 0 <= i < k ==> Whitespace(s[i])) && (k < |s| ==> s[k] == 0)
  }

  /** Where the parser sees the end: behind whitespace, at the end of the text or at a NUL. */
  lemma {:induction false} EndIff(num: NumberReader, s: bytes)
    ensures Lex(num, s).token == End <==> exists k: nat :: EndsAt(s, k)
  {
    hide LexLong;
    if s == [] || s[0] == 0 {
      assert EndsAt(s, 0);
    } else if Whitespace(s[0]) {
      EndIff(num, s[1..]);
      if k: nat :| EndsAt(s[1..], k) {
        assert EndsAt(s, k + 1);
      }
      if k: nat :| EndsAt(s, k) {
        assert k > 0 && EndsAt(s[1..], k - 1);
      }
    } else {
      LongIsNotEnd(num, s);
      assert forall k: nat :: !EndsAt(s, k);
    }
  }

  lemma LongIsNotEnd(num: NumberReader, s: bytes)
    requires s != []
    ensures LexLong(num, s).token != End
  {
  }

  /** An empty object with anything at all behind a NUL is accepted. */
  lemma RubbishAccepted(num: NumberReader, t: bytes)
    ensures Decode(num, [123, 125] + [0] + t) == Success(Table([]))
  {
    hide ParseValue, Lex;
    var z := [0] + t;
    Associative([123, 125], [0], t);
    assert [123] + ([125] + z) == [123, 125] + z;
    EmptyObjectParses(num, z, 0);
    EndAtNul(num, z);
  }

  lemma EndAtNul(num: NumberReader, z: bytes)
    requires IsNul(z)
    ensures Lex(num, z).token == End
  {
  }
}
