/** JSON texts as trees of their characters: the parser accepts exactly the texts of such trees, with what they stand
    for. Characters are written as numbers here, so that nothing is taken over from the parser's own tables. */
module JsonGrammar {
  import opened Bytes
  import opened LuaValues
  import opened JsonUnicode
  import opened JsonString
  import opened JsonParser
  import opened JsonRoundTrip
  import opened Options

  // ---------------------------------------------------------------- trees

  /** Spaces, tabs, line feeds and carriage returns. */
  predicate Blank(w: bytes) {
    forall c :: c in w ==> c == 32 || c == 9 || c == 10 || c == 13
  }

  /** A character of a string as it is, behind a backslash, or as a unicode escape. */
  datatype Char = Raw(c: byte) | Letter(letter: byte) | Unicode(escape: bytes, utf8: bytes)

  /** What `"`, `\`, `/`, `b`, `t`, `n`, `f` and `r` stand for behind a backslash. */
  function LetterValue(letter: byte): Option<byte> {
    if letter == 34 then Some(34) else if letter == 92 then Some(92) else if letter == 47 then Some(47)
    else if letter == 98 then Some(8) else if letter == 116 then Some(9) else if letter == 110 then Some(10)
    else if letter == 102 then Some(12) else if letter == 114 then Some(13) else None
  }

  predicate GoodChar(c: Char) {
    match c
    case Raw(b) => b != 0 && b != 34 && b != 92
    case Letter(l) => LetterValue(l).Some?
    case Unicode(e, u) => |e| >= 2 && e[0] == 92 && e[1] == 117 && UnicodeEscape(e) == Some(Escape(u, |e|))
  }

  function CharText(c: Char): bytes {
    match c
    case Raw(b) => [b]
    case Letter(l) => [92, l]
    case Unicode(e, _) => e
  }

  function CharValue(c: Char): bytes {
    match c
    case Raw(b) => [b]
    case Letter(l) => if LetterValue(l).Some? then [LetterValue(l).value] else []
    case Unicode(_, u) => u
  }

  predicate GoodChars(cs: seq<Char>) {
    forall c :: c in cs ==> GoodChar(c)
  }

  /** The text of a string body, and what follows it. */
  function SpellChars(cs: seq<Char>, r: bytes): bytes {
    if cs == [] then r else CharText(cs[0]) + SpellChars(cs[1..], r)
  }

  function CharsValue(cs: seq<Char>): bytes {
    if cs == [] then [] else CharValue(cs[0]) + CharsValue(cs[1..])
  }

  /** A value with the whitespace before it. Each item and member is followed by whitespace; `gap` is that of an empty
      array or object. */
  datatype Doc =
    | True(w: bytes)
    | False(w: bytes)
    | Null(w: bytes)
    | String(w: bytes, cs: seq<Char>)
    | Number(w: bytes, digits: bytes, v: Lua)
    | Array(w: bytes, gap: bytes, items: seq<Item>)
    | Object(w: bytes, gap: bytes, members: seq<Entry>)

  datatype Item = Item(val: Doc, after: bytes)

  datatype Entry = Entry(w: bytes, key: seq<Char>, colon: bytes, val: Doc, after: bytes)

  /** The text of a value, and what follows it. */
  function Spell(d: Doc, r: bytes): bytes
    decreases d
  {
    match d
    case True(w) => w + ([116, 114, 117, 101] + r)
    case False(w) => w + ([102, 97, 108, 115, 101] + r)
    case Null(w) => w + ([110, 117, 108, 108] + r)
    case String(w, cs) => w + ([34] + SpellChars(cs, [34] + r))
    case Number(w, digits, _) => w + (digits + r)
    case Array(w, gap, items) => w + ([91] + if items == [] then gap + ([93] + r) else SpellItems(items, r))
    case Object(w, gap, members) => w + ([123] + if members == [] then gap + ([125] + r) else SpellMembers(members, r))
  }

  function SpellItems(items: seq<Item>, r: bytes): bytes
    requires items != []
    decreases items
  {
    Spell(items[0].val, items[0].after + if |items| == 1 then [93] + r else [44] + SpellItems(items[1..], r))
  }

  function SpellMembers(members: seq<Entry>, r: bytes): bytes
    requires members != []
    decreases members
  {
    SpellMember(members[0], members[0].after + if |members| == 1 then [125] + r else [44] + SpellMembers(members[1..], r))
  }

  function SpellMember(m: Entry, r: bytes): bytes
    decreases m
  {
    m.w + ([34] + SpellChars(m.key, [34] + (m.colon + ([58] + Spell(m.val, r)))))
  }

  function ValueOf(d: Doc): Lua
    decreases d
  {
    match d
    case True(_) => Bool(true)
    case False(_) => Bool(false)
    case Null(_) => LuaValues.Null
    case String(_, cs) => Str(CharsValue(cs))
    case Number(_, _, v) => v
    case Array(_, _, items) => Table(ItemSets(items, 1))
    case Object(_, _, members) => Table(MemberSets(members))
  }

  function ItemSets(items: seq<Item>, i: nat): seq<Assign>
    decreases items
  {
    if items == [] then [] else [Assign(Int(i), ValueOf(items[0].val))] + ItemSets(items[1..], i + 1)
  }

  function MemberSets(members: seq<Entry>): seq<Assign>
    decreases members
  {
    if members == [] then [] else
      [Assign(Str(CharsValue(members[0].key)), ValueOf(members[0].val))] + MemberSets(members[1..])
  }

  /** Arrays and objects inside each other. */
  predicate Within(d: Doc, k: int)
    decreases d
  {
    match d
    case Array(_, _, items) => k > 0 && forall i :: i in items ==> Within(i.val, k - 1)
    case Object(_, _, members) => k > 0 && forall m :: m in members ==> Within(m.val, k - 1)
    case _ => true
  }

  /** A minus sign, a digit, a plus sign, or the start of infinity or not-a-number in letters of any case. */
  predicate NumberStart(s: bytes) {
    s != [] && (s[0] == 45 || 48 <= s[0] <= 57 || s[0] == 43 ||
      (|s| >= 3 && s[0] in [105, 73] && s[1] in [110, 78] && s[2] in [102, 70]) ||
      (|s| >= 3 && s[0] in [110, 78] && s[1] in [97, 65] && s[2] in [110, 78]))
  }

  /** Whitespace where it may be, proper strings, and numbers that the reader takes for such with what follows. */
  ghost predicate Good(num: NumberReader, d: Doc, r: bytes)
    decreases d
  {
    Blank(d.w) &&
    match d
    case String(_, cs) => GoodChars(cs)
    case Number(_, digits, v) => digits != [] && NumberStart(digits + r) && num(digits + r) == NumberRead(v, |digits|)
    case Array(_, gap, items) => Blank(gap) && GoodItems(num, items, r)
    case Object(_, gap, members) => Blank(gap) && GoodMembers(num, members, r)
    case _ => true
  }

  ghost predicate GoodItems(num: NumberReader, items: seq<Item>, r: bytes)
    decreases items
  {
    items != [] ==>
      && Blank(items[0].after)
      && Good(num, items[0].val, items[0].after + if |items| == 1 then [93] + r else [44] + SpellItems(items[1..], r))
      && GoodItems(num, items[1..], r)
  }

  ghost predicate GoodMembers(num: NumberReader, members: seq<Entry>, r: bytes)
    decreases members
  {
    members != [] ==>
      && var m := members[0];
      && Blank(m.w) && GoodChars(m.key) && Blank(m.colon) && Blank(m.after)
      && Good(num, m.val, m.after + if |members| == 1 then [125] + r else [44] + SpellMembers(members[1..], r))
      && GoodMembers(num, members[1..], r)
  }

  // ---------------------------------------------------------------- characters

  lemma EscapeExtends(e: bytes, r: bytes)
    requires |e| >= 2 && UnicodeEscape(e).Some? && UnicodeEscape(e).value.len == |e|
    ensures UnicodeEscape(e + r) == UnicodeEscape(e)
  {
    hide CodepointToUtf8;
    assert (e + r)[2..] == e[2..] + r;
    FourDigitsFirst(e[2..], r);
    if |e| >= 8 {
      assert (e + r)[8..] == e[8..] + r && (e + r)[6] == e[6] && (e + r)[7] == e[7];
      if |e| >= 12 {
        FourDigitsFirst(e[8..], r);
      }
    }
  }

  lemma FourDigitsFirst(s: bytes, r: bytes)
    requires |s| >= 4
    ensures DecodeHex4(s + r) == DecodeHex4(s)
  {
  }

  lemma LetterIsEscape(l: byte)
    ensures LetterValue(l).Some? <==> EscapeToChar(l) != 0 && EscapeToChar(l) != 117
    ensures LetterValue(l).Some? ==> LetterValue(l).value == EscapeToChar(l)
  {
  }

  lemma CharReads(c: Char, r: bytes)
    requires GoodChar(c)
    ensures CharText(c) != [] && CharText(c)[0] != 34 && (CharText(c) + r)[|CharText(c)|..] == r
    ensures ScanPiece(CharText(c) + r) == Piece(CharValue(c), |CharText(c)|)
  {
    hide UnicodeEscape;
    match c
    case Raw(_) =>
    case Letter(l) => LetterIsEscape(l);
    case Unicode(e, _) =>
      EscapeExtends(e, r);
      assert (e + r)[0] == e[0] && (e + r)[1] == e[1];
  }

  /** A string body is scanned up to the quote behind it. */
  lemma {:induction false} CharsRead(cs: seq<Char>, r: bytes)
    requires GoodChars(cs)
    ensures ScanString(SpellChars(cs, [34] + r)) == Scanned(CharsValue(cs), r)
  {
    if cs == [] {
      assert ([34] + r)[1..] == r;
    } else {
      hide ScanPiece, CharText, CharValue, GoodChar;
      var rest := SpellChars(cs[1..], [34] + r);
      assert cs[0] in cs && forall c :: c in cs[1..] ==> c in cs;
      CharReads(cs[0], rest);
      CharsRead(cs[1..], r);
      assert (CharText(cs[0]) + rest)[0] == CharText(cs[0])[0];
    }
  }

  /** What is scanned is a good character. */
  lemma PieceFound(s: bytes) returns (c: Char)
    requires (s == [] || s[0] != 34) && ScanPiece(s).Piece?
    ensures GoodChar(c) && CharValue(c) == ScanPiece(s).text && s == CharText(c) + s[ScanPiece(s).len..]
  {
    var p := ScanPiece(s);
    if s[0] != 92 {
      c := Raw(s[0]);
    } else {
      LetterIsEscape(s[1]);
      if EscapeToChar(s[1]) == 117 {
        EscapeCut(s);
        c := Unicode(s[..p.len], p.text);
      } else {
        c := Letter(s[1]);
      }
    }
  }

  /** An escape does not depend on what follows it. */
  lemma EscapeCut(s: bytes)
    requires |s| >= 2 && UnicodeEscape(s).Some?
    ensures var n := UnicodeEscape(s).value.len; n >= 6 && UnicodeEscape(s[..n]) == UnicodeEscape(s)
  {
    hide CodepointToUtf8;
    var n := UnicodeEscape(s).value.len;
    var e := s[..n];
    assert s[2..] == e[2..] + s[n..];
    FourDigitsFirst(e[2..], s[n..]);
    if n == 12 {
      assert s[8..] == e[8..] + s[n..];
      FourDigitsFirst(e[8..], s[n..]);
    }
  }

  lemma {:induction false} CharsFound(s: bytes) returns (cs: seq<Char>)
    requires ScanString(s).Scanned?
    ensures var q := ScanString(s); GoodChars(cs) && SpellChars(cs, [34] + q.rest) == s && CharsValue(cs) == q.text
    decreases |s|
  {
    hide ScanPiece, CharText, CharValue, GoodChar;
    if s != [] && s[0] == 34 {
      cs := [];
      assert s == [34] + s[1..];
    } else {
      var c := PieceFound(s);
      var rest := CharsFound(s[ScanPiece(s).len..]);
      cs := [c] + rest;
      assert cs[1..] == rest;
    }
  }

  // ---------------------------------------------------------------- tokens

  /** Whitespace before a token is skipped. */
  lemma {:induction false} LexBlank(num: NumberReader, w: bytes, s: bytes)
    requires Blank(w)
    ensures Lex(num, w + s) == Lex(num, s)
    decreases |w|
  {
    hide LexLong;
    if w == [] {
      assert w + s == s;
    } else {
      assert w[0] in w && (w + s)[0] == w[0] && (w + s)[1..] == w[1..] + s;
      assert forall c :: c in w[1..] ==> c in w;
      LexBlank(num, w[1..], s);
    }
  }

  /** A text that does not go on with whitespace. */
  predicate Bare(t: bytes) {
    t == [] || !(t[0] == 32 || t[0] == 9 || t[0] == 10 || t[0] == 13)
  }

  lemma {:induction false} Strip(s: bytes) returns (w: bytes, t: bytes)
    ensures Blank(w) && Bare(t) && s == w + t
    decreases |s|
  {
    if Bare(s) {
      w, t := [], s;
    } else {
      w, t := Strip(s[1..]);
      assert s == [s[0]] + s[1..];
      w := [s[0]] + w;
    }
  }

  /** The characters that are tokens by themselves. */
  lemma SingleIs(num: NumberReader, t: bytes)
    requires Bare(t)
    ensures var l := Lex(num, t);
      && (l.token == ObjBegin ==> t == [123] + l.rest)
      && (l.token == ObjEnd ==> t == [125] + l.rest)
      && (l.token == ArrBegin ==> t == [91] + l.rest)
      && (l.token == ArrEnd ==> t == [93] + l.rest)
      && (l.token == Comma ==> t == [44] + l.rest)
      && (l.token == Colon ==> t == [58] + l.rest)
  {
    hide ScanString, StartsWithLetters;
  }

  lemma WordIs(num: NumberReader, t: bytes)
    requires Bare(t)
    ensures var l := Lex(num, t);
      && (l.token == BooleanToken(true) ==> t == [116, 114, 117, 101] + l.rest)
      && (l.token == BooleanToken(false) ==> t == [102, 97, 108, 115, 101] + l.rest)
      && (l.token == NullToken ==> t == [110, 117, 108, 108] + l.rest)
  {
    hide ScanString, StartsWithLetters;
  }

  lemma StringIs(num: NumberReader, t: bytes)
    requires Bare(t) && Lex(num, t).token.StringToken?
    ensures t != [] && t == [34] + t[1..] && ScanString(t[1..]) == Scanned(Lex(num, t).token.s, Lex(num, t).rest)
  {
    hide ScanString, StartsWithLetters;
  }

  lemma NumberIs(num: NumberReader, t: bytes) returns (digits: bytes)
    requires Bare(t) && Lex(num, t).token.NumberToken?
    ensures var l := Lex(num, t);
      digits != [] && t == digits + l.rest && NumberStart(t) && num(t) == NumberRead(l.token.v, |digits|)
  {
    hide ScanString;
    digits := t[..num(t).used];
  }

  lemma LexOpen(num: NumberReader, c: byte, r: bytes)
    ensures c == 123 ==> Lex(num, [c] + r) == Lexed(ObjBegin, r)
    ensures c == 125 ==> Lex(num, [c] + r) == Lexed(ObjEnd, r)
    ensures c == 91 ==> Lex(num, [c] + r) == Lexed(ArrBegin, r)
    ensures c == 93 ==> Lex(num, [c] + r) == Lexed(ArrEnd, r)
    ensures c == 44 ==> Lex(num, [c] + r) == Lexed(Comma, r)
    ensures c == 58 ==> Lex(num, [c] + r) == Lexed(Colon, r)
  {
    hide LexLong;
    assert ([c] + r)[0] == c && ([c] + r)[1..] == r;
  }

  lemma LexWords(num: NumberReader, r: bytes)
    ensures Lex(num, [110, 117, 108, 108] + r) == Lexed(NullToken, r)
    ensures Lex(num, [116, 114, 117, 101] + r) == Lexed(BooleanToken(true), r)
    ensures Lex(num, [102, 97, 108, 115, 101] + r) == Lexed(BooleanToken(false), r)
  {
    LexWord(num, r);
  }

  lemma LexString(num: NumberReader, cs: seq<Char>, r: bytes)
    requires GoodChars(cs)
    ensures Lex(num, [34] + SpellChars(cs, [34] + r)) == Lexed(StringToken(CharsValue(cs)), r)
  {
    hide ScanString, StartsWithLetters, Lex;
    var s := [34] + SpellChars(cs, [34] + r);
    CharsRead(cs, r);
    assert s[1..] == SpellChars(cs, [34] + r);
    LexIsLong(num, s);
  }

  lemma LexDigits(num: NumberReader, digits: bytes, v: Lua, r: bytes)
    requires digits != [] && NumberStart(digits + r) && num(digits + r) == NumberRead(v, |digits|)
    ensures Lex(num, digits + r) == Lexed(NumberToken(v), r)
  {
    hide ScanString, Lex;
    var s := digits + r;
    assert s[|digits|..] == r;
    LexIsLong(num, s);
  }

  // ---------------------------------------------------------------- every such text is accepted

  lemma TokenBehind(num: NumberReader, w: bytes, c: byte, r: bytes)
    requires Blank(w)
    ensures c == 123 ==> Lex(num, w + ([c] + r)) == Lexed(ObjBegin, r)
    ensures c == 125 ==> Lex(num, w + ([c] + r)) == Lexed(ObjEnd, r)
    ensures c == 91 ==> Lex(num, w + ([c] + r)) == Lexed(ArrBegin, r)
    ensures c == 93 ==> Lex(num, w + ([c] + r)) == Lexed(ArrEnd, r)
    ensures c == 44 ==> Lex(num, w + ([c] + r)) == Lexed(Comma, r)
    ensures c == 58 ==> Lex(num, w + ([c] + r)) == Lexed(Colon, r)
  {
    hide Lex;
    LexBlank(num, w, [c] + r);
    LexOpen(num, c, r);
  }

  lemma ItemsGood(num: NumberReader, items: seq<Item>, r: bytes)
    requires items != [] && GoodItems(num, items, r)
    ensures var tail := if |items| == 1 then [93] + r else [44] + SpellItems(items[1..], r);
      Blank(items[0].after) && Good(num, items[0].val, items[0].after + tail) && GoodItems(num, items[1..], r)
  {
  }

  /** The text of a tree is parsed to its value, whatever follows. */
  lemma {:induction false} Reads(num: NumberReader, d: Doc, depth: nat, r: bytes)
    requires Good(num, d, r) && Within(d, 1000 - depth)
    ensures ParseValue(num, Spell(d, r), depth) == Value(ValueOf(d), r)
    decreases d
  {
    hide Lex, ParseObject, ParseArray, SpellChars, CharsValue, SpellItems, SpellMembers, GoodItems, GoodMembers, GoodChars;
    match d
    case True(w) =>
      LexWords(num, r);
      LexBlank(num, w, [116, 114, 117, 101] + r);
    case False(w) =>
      LexWords(num, r);
      LexBlank(num, w, [102, 97, 108, 115, 101] + r);
    case Null(w) =>
      LexWords(num, r);
      LexBlank(num, w, [110, 117, 108, 108] + r);
    case String(w, cs) =>
      LexString(num, cs, r);
      LexBlank(num, w, [34] + SpellChars(cs, [34] + r));
    case Number(w, digits, v) =>
      LexDigits(num, digits, v, r);
      LexBlank(num, w, digits + r);
    case Array(w, gap, items) =>
      var body := if items == [] then gap + ([93] + r) else SpellItems(items, r);
      TokenBehind(num, w, 91, body);
      ReadsArray(num, gap, items, depth, r);
    case Object(w, gap, members) =>
      var body := if members == [] then gap + ([125] + r) else SpellMembers(members, r);
      TokenBehind(num, w, 123, body);
      ReadsObject(num, gap, members, depth, r);
  }

  lemma {:induction false} ReadsArray(num: NumberReader, gap: bytes, items: seq<Item>, depth: nat, r: bytes)
    requires Blank(gap) && GoodItems(num, items, r) && depth < 1000
    requires forall i :: i in items ==> Within(i.val, 999 - depth)
    ensures ParseArray(num, if items == [] then gap + ([93] + r) else SpellItems(items, r), depth)
      == Value(Table(ItemSets(items, 1)), r)
    decreases items, 1
  {
    hide Lex, GoodItems, SpellItems, Within;
    if items == [] {
      TokenBehind(num, gap, 93, r);
    } else {
      hide ItemSets;
      ReadsItems(num, items, 1, depth + 1, r);
      ElementsAreNotEnd(num, SpellItems(items, r), 1, depth + 1);
    }
  }

  lemma ElementsAreNotEnd(num: NumberReader, s: bytes, i: nat, depth: nat)
    requires ParseElements(num, s, i, depth).Sets?
    ensures Lex(num, s).token != ArrEnd
  {
    hide Lex;
  }

  lemma {:induction false} ReadsItems(num: NumberReader, items: seq<Item>, i: nat, depth: nat, r: bytes)
    requires items != [] && GoodItems(num, items, r) && depth <= 1000
    requires forall x :: x in items ==> Within(x.val, 1000 - depth)
    ensures ParseElements(num, SpellItems(items, r), i, depth) == Sets(ItemSets(items, i), r)
    decreases items, 0
  {
    hide Lex, GoodItems, Good, Within, Spell, ParseValue;
    ItemsGood(num, items, r);
    var first, rest := items[0], items[1..];
    assert first in items && forall x :: x in rest ==> x in items;
    if rest == [] {
      Reads(num, first.val, depth, first.after + ([93] + r));
      TokenBehind(num, first.after, 93, r);
      assert ItemSets(rest, i + 1) == [];
    } else {
      Reads(num, first.val, depth, first.after + ([44] + SpellItems(rest, r)));
      TokenBehind(num, first.after, 44, SpellItems(rest, r));
      ReadsItems(num, rest, i + 1, depth, r);
    }
  }

  lemma {:induction false} ReadsObject(num: NumberReader, gap: bytes, members: seq<Entry>, depth: nat, r: bytes)
    requires Blank(gap) && GoodMembers(num, members, r) && depth < 1000
    requires forall m :: m in members ==> Within(m.val, 999 - depth)
    ensures ParseObject(num, if members == [] then gap + ([125] + r) else SpellMembers(members, r), depth)
      == Value(Table(MemberSets(members)), r)
    decreases members, 2
  {
    hide Lex, GoodMembers, SpellMembers, Within;
    if members == [] {
      TokenBehind(num, gap, 125, r);
    } else {
      hide MemberSets;
      ReadsMembers(num, members, depth + 1, r);
      MembersAreNotEnd(num, SpellMembers(members, r), depth + 1);
    }
  }

  lemma MembersAreNotEnd(num: NumberReader, s: bytes, depth: nat)
    requires ParseMembers(num, s, depth).Sets?
    ensures Lex(num, s).token != ObjEnd
  {
    hide Lex, ParseValue;
  }

  /** A member with what follows its value. */
  ghost predicate GoodMember(num: NumberReader, m: Entry, r: bytes) {
    Blank(m.w) && GoodChars(m.key) && Blank(m.colon) && Good(num, m.val, r)
  }

  lemma MembersGood(num: NumberReader, members: seq<Entry>, r: bytes)
    requires members != [] && GoodMembers(num, members, r)
    ensures var tail := if |members| == 1 then [125] + r else [44] + SpellMembers(members[1..], r);
      && Blank(members[0].after) && GoodMember(num, members[0], members[0].after + tail)
      && GoodMembers(num, members[1..], r)
  {
    hide Good, GoodChars, Blank;
  }

  lemma {:induction false} ReadsMember(num: NumberReader, m: Entry, depth: nat, r: bytes)
    requires GoodMember(num, m, r) && depth <= 1000 && Within(m.val, 1000 - depth)
    ensures ParseMember(num, SpellMember(m, r), depth) == Sets([Assign(Str(CharsValue(m.key)), ValueOf(m.val))], r)
    decreases m
  {
    hide Lex, SpellChars, CharsValue, Good, Within, Spell, ParseValue, GoodChars;
    var val := Spell(m.val, r);
    var behind := m.colon + ([58] + val);
    LexString(num, m.key, behind);
    LexBlank(num, m.w, [34] + SpellChars(m.key, [34] + behind));
    TokenBehind(num, m.colon, 58, val);
    Reads(num, m.val, depth, r);
  }

  lemma {:induction false} ReadsMembers(num: NumberReader, members: seq<Entry>, depth: nat, r: bytes)
    requires members != [] && GoodMembers(num, members, r) && depth <= 1000
    requires forall x :: x in members ==> Within(x.val, 1000 - depth)
    ensures ParseMembers(num, SpellMembers(members, r), depth) == Sets(MemberSets(members), r)
    decreases members, 1
  {
    hide Lex, GoodMembers, GoodMember, Within, SpellMember, ParseMember, CharsValue;
    MembersGood(num, members, r);
    var first, rest := members[0], members[1..];
    assert first in members && forall x :: x in rest ==> x in members;
    if rest == [] {
      ReadsMember(num, first, depth, first.after + ([125] + r));
      TokenBehind(num, first.after, 125, r);
      assert MemberSets(rest) == [];
    } else {
      ReadsMember(num, first, depth, first.after + ([44] + SpellMembers(rest, r)));
      TokenBehind(num, first.after, 44, SpellMembers(rest, r));
      ReadsMembers(num, rest, depth, r);
    }
  }

  // ---------------------------------------------------------------- no other text is accepted

  /** Whatever is parsed as a value is the text of a tree of that value. */
  lemma {:induction false} Found(num: NumberReader, s: bytes, depth: nat) returns (d: Doc)
    requires ParseValue(num, s, depth).Value?
    ensures var p := ParseValue(num, s, depth);
      Good(num, d, p.rest) && Spell(d, p.rest) == s && ValueOf(d) == p.v && Within(d, 1000 - depth)
    decreases |s|, 0
  {
    hide Lex, ParseObject, ParseArray, SpellChars, CharsValue, SpellItems, SpellMembers, GoodItems, GoodMembers, GoodChars;
    var w, t := Strip(s);
    LexBlank(num, w, t);
    var l := Lex(num, t);
    match l.token
    case BooleanToken(b) =>
      WordIs(num, t);
      d := if b then True(w) else False(w);
    case NullToken =>
      WordIs(num, t);
      d := Doc.Null(w);
    case StringToken(_) =>
      StringIs(num, t);
      var cs := CharsFound(t[1..]);
      d := String(w, cs);
    case NumberToken(v) =>
      var digits := NumberIs(num, t);
      d := Number(w, digits, v);
    case ArrBegin =>
      SingleIs(num, t);
      var gap, items := FoundArray(num, l.rest, depth);
      d := Array(w, gap, items);
    case ObjBegin =>
      SingleIs(num, t);
      var gap, members := FoundObject(num, l.rest, depth);
      d := Object(w, gap, members);
    case _ =>
  }

  lemma {:induction false} FoundArray(num: NumberReader, s: bytes, depth: nat) returns (gap: bytes, items: seq<Item>)
    requires ParseArray(num, s, depth).Value?
    ensures var p := ParseArray(num, s, depth);
      && s == (if items == [] then gap + ([93] + p.rest) else SpellItems(items, p.rest))
      && Blank(gap) && GoodItems(num, items, p.rest) && p.v == Table(ItemSets(items, 1))
      && depth < 1000 && forall i :: i in items ==> Within(i.val, 999 - depth)
    decreases |s|, 3
  {
    hide Lex, GoodItems, SpellItems, Within, ItemSets;
    NoItems(num, ParseArray(num, s, depth).rest);
    if Lex(num, s).token == ArrEnd {
      var t;
      gap, t := Strip(s);
      LexBlank(num, gap, t);
      SingleIs(num, t);
      items := [];
    } else {
      gap := [];
      items := FoundItems(num, s, 1, depth + 1);
    }
  }

  lemma NoItems(num: NumberReader, r: bytes)
    ensures GoodItems(num, [], r) && ItemSets([], 1) == [] && GoodMembers(num, [], r) && MemberSets([]) == []
  {
  }

  lemma MoreItems(num: NumberReader, first: Item, rest: seq<Item>, i: nat, r: bytes)
    requires var tail := if rest == [] then [93] + r else [44] + SpellItems(rest, r);
      Blank(first.after) && Good(num, first.val, first.after + tail) && GoodItems(num, rest, r)
    ensures var items := [first] + rest;
      && GoodItems(num, items, r)
      && SpellItems(items, r) == Spell(first.val, first.after + if rest == [] then [93] + r else [44] + SpellItems(rest, r))
      && ItemSets(items, i) == [Assign(Int(i), ValueOf(first.val))] + ItemSets(rest, i + 1)
  {
    hide Good, Spell, ValueOf, Blank;
    assert ([first] + rest)[1..] == rest;
  }

  lemma {:induction false} FoundItems(num: NumberReader, s: bytes, i: nat, depth: nat) returns (items: seq<Item>)
    requires ParseElements(num, s, i, depth).Sets?
    ensures var p := ParseElements(num, s, i, depth);
      && items != [] && SpellItems(items, p.rest) == s && GoodItems(num, items, p.rest)
      && p.sets == ItemSets(items, i) && forall x :: x in items ==> Within(x.val, 1000 - depth)
    decreases |s|, 2
  {
    hide Lex, GoodItems, Good, Within, Spell, ParseValue, SpellItems, ItemSets;
    var p, v := ParseElements(num, s, i, depth), ParseValue(num, s, depth);
    var d := Found(num, s, depth);
    var w, t := Strip(v.rest);
    LexBlank(num, w, t);
    SingleIs(num, t);
    var l := Lex(num, t);
    var rest: seq<Item> := [];
    if l.token == Comma {
      rest := FoundItems(num, l.rest, i + 1, depth);
    }
    NoItems(num, p.rest);
    NoItemSets(i + 1);
    MoreItems(num, Item(d, w), rest, i, p.rest);
    items := [Item(d, w)] + rest;
    assert [Assign(Int(i), v.v)] + [] == [Assign(Int(i), v.v)];
    assert forall x :: x in items ==> x == Item(d, w) || x in rest;
  }

  lemma NoItemSets(i: nat)
    ensures ItemSets([], i) == []
  {
  }

  lemma {:induction false} FoundObject(num: NumberReader, s: bytes, depth: nat) returns (gap: bytes, members: seq<Entry>)
    requires ParseObject(num, s, depth).Value?
    ensures var p := ParseObject(num, s, depth);
      && s == (if members == [] then gap + ([125] + p.rest) else SpellMembers(members, p.rest))
      && Blank(gap) && GoodMembers(num, members, p.rest) && p.v == Table(MemberSets(members))
      && depth < 1000 && forall m :: m in members ==> Within(m.val, 999 - depth)
    decreases |s|, 3
  {
    hide Lex, GoodMembers, SpellMembers, Within, MemberSets;
    NoItems(num, ParseObject(num, s, depth).rest);
    if Lex(num, s).token == ObjEnd {
      var t;
      gap, t := Strip(s);
      LexBlank(num, gap, t);
      SingleIs(num, t);
      members := [];
    } else {
      gap := [];
      members := FoundMembers(num, s, depth + 1);
    }
  }

  lemma {:induction false} FoundMember(num: NumberReader, s: bytes, depth: nat)
    returns (w: bytes, key: seq<Char>, colon: bytes, d: Doc)
    requires ParseMember(num, s, depth).Sets?
    ensures var p := ParseMember(num, s, depth);
      && Blank(w) && GoodChars(key) && Blank(colon) && Good(num, d, p.rest)
      && s == w + ([34] + SpellChars(key, [34] + (colon + ([58] + Spell(d, p.rest)))))
      && p.sets == [Assign(Str(CharsValue(key)), ValueOf(d))] && Within(d, 1000 - depth)
    decreases |s|, 1
  {
    hide Lex, SpellChars, CharsValue, Good, Within, Spell, ParseValue, GoodChars;
    var t, u;
    w, t := Strip(s);
    LexBlank(num, w, t);
    StringIs(num, t);
    key := CharsFound(t[1..]);
    var k := Lex(num, t);
    colon, u := Strip(k.rest);
    LexBlank(num, colon, u);
    SingleIs(num, u);
    d := Found(num, Lex(num, u).rest, depth);
  }

  lemma MoreGoodMembers(num: NumberReader, first: Entry, rest: seq<Entry>, r: bytes)
    requires var tail := if rest == [] then [125] + r else [44] + SpellMembers(rest, r);
      Blank(first.after) && GoodMember(num, first, first.after + tail) && GoodMembers(num, rest, r)
    ensures var members := [first] + rest;
      && GoodMembers(num, members, r)
      && SpellMembers(members, r)
        == SpellMember(first, first.after + if rest == [] then [125] + r else [44] + SpellMembers(rest, r))
      && MemberSets(members) == [Assign(Str(CharsValue(first.key)), ValueOf(first.val))] + MemberSets(rest)
  {
    hide Good, SpellMember, ValueOf, Blank, GoodChars, CharsValue;
    assert ([first] + rest)[1..] == rest;
  }

  lemma {:induction false} FoundMembers(num: NumberReader, s: bytes, depth: nat) returns (members: seq<Entry>)
    requires ParseMembers(num, s, depth).Sets?
    ensures var p := ParseMembers(num, s, depth);
      && members != [] && SpellMembers(members, p.rest) == s && GoodMembers(num, members, p.rest)
      && p.sets == MemberSets(members) && forall x :: x in members ==> Within(x.val, 1000 - depth)
    decreases |s|, 2
  {
    hide Lex, GoodMembers, Good, Within, Spell, ParseMember, SpellMembers, MemberSets, GoodChars, SpellChars, CharsValue;
    var p, v := ParseMembers(num, s, depth), ParseMember(num, s, depth);
    var w, key, colon, d := FoundMember(num, s, depth);
    var after, t := Strip(v.rest);
    LexBlank(num, after, t);
    SingleIs(num, t);
    var l := Lex(num, t);
    var rest: seq<Entry> := [];
    if l.token == Comma {
      rest := FoundMembers(num, l.rest, depth);
    }
    NoItems(num, p.rest);
    var first := Entry(w, key, colon, d, after);
    MoreGoodMembers(num, first, rest, p.rest);
    members := [first] + rest;
    assert v.sets + [] == v.sets;
    assert forall x :: x in members ==> x == first || x in rest;
  }

  // ---------------------------------------------------------------- whole texts

  /** Nothing but whitespace, up to the end or a NUL. */
  predicate Ended(z: bytes) {
    z == [] || z[0] == 0 || ((z[0] == 32 || z[0] == 9 || z[0] == 10 || z[0] == 13) && Ended(z[1..]))
  }

  lemma {:induction false} EndedIff(num: NumberReader, z: bytes)
    ensures Lex(num, z).token == End <==> Ended(z)
  {
    hide LexLong;
    if z != [] {
      EndedIff(num, z[1..]);
      LongIsNotTheEnd(num, z);
    }
  }

  lemma LongIsNotTheEnd(num: NumberReader, z: bytes)
    requires z != []
    ensures LexLong(num, z).token != End
  {
  }

  /** The text is that of a tree at most 1000 levels deep, which stands for `v`, and ends behind it. */
  ghost predicate Stands(num: NumberReader, s: bytes, v: Lua) {
    exists d: Doc, z: bytes :: Spell(d, z) == s && Good(num, d, z) && Within(d, 1000) && Ended(z) && ValueOf(d) == v
  }

  /** The parser accepts exactly the texts of trees, but for those with a NUL as one of the first two bytes, and makes
      of them what the trees stand for. */
  lemma AcceptedIff(num: NumberReader, s: bytes, v: Lua)
    ensures Decode(num, s) == Success(v) <==> Stands(num, s, v) && !(|s| >= 2 && (s[0] == 0 || s[1] == 0))
  {
    hide Lex, ParseValue, Spell, Good, Within, ValueOf;
    if Decode(num, s) == Success(v) {
      var p := ParseValue(num, s, 0);
      var d := Found(num, s, 0);
      EndedIff(num, p.rest);
    }
    if d: Doc, z: bytes :| Spell(d, z) == s && Good(num, d, z) && Within(d, 1000) && Ended(z) && ValueOf(d) == v {
      Reads(num, d, 0, z);
      EndedIff(num, z);
    }
  }
}
