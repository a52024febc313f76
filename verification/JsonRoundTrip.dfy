/** Decoding undoes JSON printing, for values without floats, up to exactly what the text cannot say. */
module JsonRoundTrip {
  import opened Bytes
  import opened LuaValues
  import opened LuaTables
  import opened JsonString
  import opened JsonPrinter
  import opened JsonParser

  const EXACT := 100_000_000_000_000

  // ---------------------------------------------------------------- what the C library does with integers

  function Digits(n: nat): (s: bytes)
    ensures s != [] && forall c :: c in s ==> 48 <= c <= 57
  {
    if n < 10 then [48 + n] else Digits(n / 10) + [48 + n % 10]
  }

  function Decimal(n: int): bytes {
    if n < 0 then [45] + Digits(-n) else Digits(n)
  }

  /** Integers of at most 14 digits print as such. */
  ghost predicate PrintsIntegers(fmt: Formatter) {
    Formats(fmt) && forall n :: -EXACT < n < EXACT ==> fmt(Int(n)) == Decimal(n)
  }

  predicate Digit(c: byte) {
    48 <= c <= 57
  }

  /** The text does not go on with a letter, a digit or a point. */
  predicate Closed(r: bytes) {
    r == [] || !(Digit(r[0]) || r[0] == 46 || 65 <= r[0] <= 90 || 97 <= r[0] <= 122)
  }

  /** Such an integer is read back when the text does not go on as a number. */
  ghost predicate ReadsIntegers(num: NumberReader) {
    forall n, r :: -EXACT < n < EXACT && Closed(r) ==> num(Decimal(n) + r) == NumberRead(Int(n), |Decimal(n)|)
  }

  /** A formatter and a reader of this kind. */
  function PlainFormat(v: Lua): bytes {
    if v.Int? && -EXACT < v.n < EXACT then Decimal(v.n) else [48]
  }

  function LeadingDigits(s: bytes): (k: nat)
    ensures k <= |s|
  {
    if s == [] || !Digit(s[0]) then 0 else 1 + LeadingDigits(s[1..])
  }

  function DigitsValue(s: bytes): int {
    if s == [] then 0 else 10 * DigitsValue(s[..|s| - 1]) + (s[|s| - 1] as int - 48)
  }

  function PlainRead(s: bytes): NumberRead {
    var from := if s != [] && s[0] == 45 then 1 else 0;
    var k := LeadingDigits(s[from..]);
    var n := DigitsValue(s[from..from + k]);
    if k == 0 then NumberRead(Nil, 0) else NumberRead(Int(if from == 1 then -n else n), from + k)
  }

  lemma {:induction false} DigitsAreShort(n: nat, k: nat, p: nat)
    requires k > 0 && n < p && p == Power10(k)
    ensures |Digits(n)| <= k
    decreases k
  {
    if n >= 10 {
      assert p == 10 * Power10(k - 1);
      DigitsAreShort(n / 10, k - 1, Power10(k - 1));
    }
  }

  function Power10(k: nat): nat {
    if k == 0 then 1 else 10 * Power10(k - 1)
  }

  lemma {:induction false} DigitsReadBack(n: nat)
    ensures DigitsValue(Digits(n)) == n
  {
    if n >= 10 {
      DigitsReadBack(n / 10);
      assert Digits(n)[..|Digits(n)| - 1] == Digits(n / 10);
    }
  }

  lemma {:induction false} LeadingDigitsAll(s: bytes, r: bytes)
    requires (forall c :: c in s ==> Digit(c)) && (r == [] || !Digit(r[0]))
    ensures LeadingDigits(s + r) == |s|
  {
    if s == [] {
      assert s + r == r;
    } else {
      assert (s + r)[1..] == s[1..] + r;
      LeadingDigitsAll(s[1..], r);
    }
  }

  lemma PlainReadsBack(n: int, r: bytes)
    requires Closed(r)
    ensures PlainRead(Decimal(n) + r) == NumberRead(Int(n), |Decimal(n)|)
  {
    var m := if n < 0 then -n else n;
    var d := Digits(m);
    DigitsReadBack(m);
    LeadingDigitsAll(d, r);
    if n < 0 {
      Associative([45], d, r);
      PlainReadFrom([45] + (d + r), 1, d, r);
    } else {
      assert d[0] in d && (d + r)[0] == d[0];
      PlainReadFrom(d + r, 0, d, r);
    }
  }

  lemma PlainReadFrom(s: bytes, from: nat, d: bytes, r: bytes)
    requires s != [] && d != [] && from == (if s[0] == 45 then 1 else 0)
    requires s[from..] == d + r && LeadingDigits(d + r) == |d|
    ensures PlainRead(s) == NumberRead(Int(if from == 1 then -DigitsValue(d) else DigitsValue(d)), from + |d|)
  {
    hide DigitsValue, LeadingDigits;
    assert s[from..from + |d|] == s[from..][..|d|] == d;
  }

  /** The two assumptions hold of some formatter and reader. */
  lemma IntegersCanBeReadBack()
    ensures PrintsIntegers(PlainFormat) && ReadsIntegers(PlainRead)
  {
    forall v
      ensures |PlainFormat(v)| < NUMBER_SIZE && 0 !in PlainFormat(v) && PlainFormat(v) != []
    {
      if v.Int? && -EXACT < v.n < EXACT {
        FourteenDigits();
        DigitsAreShort(if v.n < 0 then -v.n else v.n, 14, EXACT);
      }
    }
    forall n, r | -EXACT < n < EXACT && Closed(r)
      ensures PlainRead(Decimal(n) + r) == NumberRead(Int(n), |Decimal(n)|)
    {
      PlainReadsBack(n, r);
    }
  }

  lemma FourteenDigits()
    ensures Power10(14) == EXACT
  {
    assert Power10(4) == 10_000 by { assert Power10(2) == 100; }
    assert Power10(6) == 1_000_000;
    assert Power10(8) == 100_000_000;
    assert Power10(10) == 10_000_000_000;
    assert Power10(12) == 1_000_000_000_000;
  }

  // ---------------------------------------------------------------- tokens

  lemma LexSingle(num: NumberReader, c: byte, r: bytes)
    requires SingleToken(c) != InvalidToken
    ensures Lex(num, [c] + r) == Lexed(SingleToken(c), r)
  {
    var s := [c] + r;
    assert s[0] == c && s[1..] == r && !Whitespace(c) && c != 0;
  }

  lemma LexIsLong(num: NumberReader, s: bytes)
    requires s != [] && s[0] != 0 && !Whitespace(s[0]) && SingleToken(s[0]) == InvalidToken
    ensures Lex(num, s) == LexLong(num, s)
  {
  }

  lemma LexQuoted(num: NumberReader, s: bytes, r: bytes)
    ensures Lex(num, Quoted(s) + r) == Lexed(StringToken(s), r)
  {
    hide Quoted, ScanString, Lex;
    QuotedReadsBack(s, r);
    LexIsLong(num, Quoted(s) + r);
  }

  lemma LexWord(num: NumberReader, r: bytes)
    ensures Lex(num, NULL + r) == Lexed(NullToken, r)
    ensures Lex(num, TRUE + r) == Lexed(BooleanToken(true), r)
    ensures Lex(num, FALSE + r) == Lexed(BooleanToken(false), r)
  {
    var n, t, f := NULL + r, TRUE + r, FALSE + r;
    assert n[0] == 110 && t[0] == 116 && f[0] == 102;
    LexIsLong(num, n);
    LexIsLong(num, t);
    LexIsLong(num, f);
    hide Lex;
    assert NULL <= n && TRUE <= t && FALSE <= f;
    assert n[4..] == r && t[4..] == r && f[5..] == r;
  }

  lemma LexDecimal(num: NumberReader, n: int, r: bytes)
    requires ReadsIntegers(num) && -EXACT < n < EXACT && Closed(r)
    ensures Lex(num, Decimal(n) + r) == Lexed(NumberToken(Int(n)), r)
  {
    var s := Decimal(n) + r;
    assert num(s) == NumberRead(Int(n), |Decimal(n)|);
    var d := Digits(if n < 0 then -n else n);
    assert d[0] in d;
    assert s[0] == Decimal(n)[0] && (s[0] == 45 || Digit(s[0]));
    hide Digits;
    assert s[|Decimal(n)|..] == r;
  }

  // ---------------------------------------------------------------- what comes back

  /** Integers of at most 14 digits, also as keys, and no other numbers. */
  predicate Plain(v: Lua) {
    match v
    case Int(n) => -EXACT < n < EXACT
    case Double(_) => false
    case Table(sets) => forall e :: e in sets ==> (e.key.Str? || (e.key.Int? && Plain(e.key))) && Plain(e.val)
    case _ => true
  }

  function KeyImage(k: Lua): Lua {
    match k
    case Int(n) => Str(Decimal(n))
    case _ => k
  }

  /** The assignments the parser makes for a printed value: null for what is missing, and text for keys. */
  function Image(v: Lua): Lua
    decreases v
  {
    match v
    case Nil => Null
    case Table(sets) =>
      if ArrayLength(sets) > 0 then Table(ImageElements(v, KeyOrder(sets, ArrayLength(sets)), 0))
      else Table(ImageMembers(v, 0))
    case _ => v
  }

  function ImageElement(t: Lua, p: nat): Lua
    requires t.Table?
    decreases t, 0
  {
    if p >= |t.sets| then Null else Image(t.sets[p].val)
  }

  function ImageElements(t: Lua, order: seq<nat>, j: nat): (r: seq<Assign>)
    requires t.Table? && j <= |order|
    ensures |r| == |order| - j
    decreases t, 1, |order| - j
  {
    if j == |order| then [] else [Assign(Int(j + 1), ImageElement(t, order[j]))] + ImageElements(t, order, j + 1)
  }

  function ImageMembers(t: Lua, i: nat): (r: seq<Assign>)
    requires t.Table? && i <= |t.sets|
    ensures |r| == |t.sets| - i
    decreases t, 1, |t.sets| - i
  {
    if i == |t.sets| then [] else
      [Assign(KeyImage(t.sets[i].key), Image(t.sets[i].val))] + ImageMembers(t, i + 1)
  }

  // ---------------------------------------------------------------- parsing what was printed

  /** The text of an element, and the text after it, which starts with a comma or the closing bracket. */
  lemma ElementsText(fmt: Formatter, t: Lua, order: seq<nat>, j: nat, depth: nat)
    requires t.Table? && j < |order| && PrintElements(fmt, t, order, j, depth).Text?
    ensures PrintElement(fmt, t, order[j], depth).Text? && PrintElements(fmt, t, order, j + 1, depth).Text?
    ensures PrintElements(fmt, t, order, j, depth).s ==
      Separator(j) + (PrintElement(fmt, t, order[j], depth).s + PrintElements(fmt, t, order, j + 1, depth).s)
  {
    hide PrintElement;
    var e, rest := PrintElement(fmt, t, order[j], depth), PrintElements(fmt, t, order, j + 1, depth);
    Associative(Separator(j), e.s, rest.s);
  }

  lemma MembersText(fmt: Formatter, t: Lua, i: nat, depth: nat)
    requires t.Table? && i < |t.sets| && PrintMembers(fmt, t, i, depth).Text?
    ensures PrintMember(fmt, t, i, depth).Text? && PrintMembers(fmt, t, i + 1, depth).Text?
    ensures PrintMembers(fmt, t, i, depth).s ==
      Separator(i) + (PrintMember(fmt, t, i, depth).s + PrintMembers(fmt, t, i + 1, depth).s)
  {
    hide PrintMember;
    var e, rest := PrintMember(fmt, t, i, depth), PrintMembers(fmt, t, i + 1, depth);
    Associative(Separator(i), e.s, rest.s);
  }

  lemma MemberText(fmt: Formatter, t: Lua, i: nat, depth: nat)
    requires t.Table? && i < |t.sets| && PrintMember(fmt, t, i, depth).Text?
    ensures PrintKey(fmt, t.sets[i].key).Text? && Print(fmt, t.sets[i].val, depth).Text?
    ensures PrintMember(fmt, t, i, depth).s == PrintKey(fmt, t.sets[i].key).s + Print(fmt, t.sets[i].val, depth).s
  {
  }

  lemma LastElement(num: NumberReader, e: bytes, v: Lua, r: bytes, i: nat, depth: nat)
    requires ParseValue(num, e + ([93] + r), depth) == Value(v, [93] + r)
    ensures ParseElements(num, e + ([93] + r), i, depth) == Sets([Assign(Int(i), v)], r)
  {
    hide Lex, ParseValue;
    LexSingle(num, 93, r);
  }

  lemma MoreElements(num: NumberReader, e: bytes, v: Lua, t: bytes, i: nat, depth: nat, sets: seq<Assign>, r: bytes)
    requires ParseValue(num, e + ([44] + t), depth) == Value(v, [44] + t)
    requires ParseElements(num, t, i + 1, depth) == Sets(sets, r)
    ensures ParseElements(num, e + ([44] + t), i, depth) == Sets([Assign(Int(i), v)] + sets, r)
  {
    hide Lex, ParseValue;
    LexSingle(num, 44, t);
  }

  lemma LastMember(num: NumberReader, m: bytes, a: Assign, r: bytes, depth: nat)
    requires ParseMember(num, m + ([125] + r), depth) == Sets([a], [125] + r)
    ensures ParseMembers(num, m + ([125] + r), depth) == Sets([a], r)
  {
    hide Lex, ParseMember;
    LexSingle(num, 125, r);
  }

  lemma MoreMembers(num: NumberReader, m: bytes, a: Assign, t: bytes, depth: nat, sets: seq<Assign>, r: bytes)
    requires ParseMember(num, m + ([44] + t), depth) == Sets([a], [44] + t)
    requires ParseMembers(num, t, depth) == Sets(sets, r)
    ensures ParseMembers(num, m + ([44] + t), depth) == Sets([a] + sets, r)
  {
    hide Lex, ParseMember;
    LexSingle(num, 44, t);
  }

  lemma MemberParses(num: NumberReader, k: bytes, x: bytes, v: Lua, r: bytes, depth: nat)
    requires ParseValue(num, x + r, depth) == Value(v, r)
    ensures ParseMember(num, Quoted(k) + ([58] + (x + r)), depth) == Sets([Assign(Str(k), v)], r)
  {
    hide Lex, ParseValue, Quoted;
    LexQuoted(num, k, [58] + (x + r));
    LexSingle(num, 58, x + r);
  }

  lemma PrintInt(fmt: Formatter, n: int)
    requires PrintsIntegers(fmt) && -EXACT < n < EXACT
    ensures PrintNumber(fmt, Int(n)) == Text(Decimal(n))
  {
  }

  lemma {:induction false} EscapedDigits(s: bytes)
    requires forall c :: c in s ==> Digit(c) || c == 45
    ensures Escaped(s) == s
  {
    if s != [] {
      var c := s[|s| - 1];
      assert c in s;
      EscapedDigits(s[..|s| - 1]);
      assert EscapeOf(c) == [c];
    }
  }

  lemma EscapedDecimal(n: int)
    ensures [QUOTE] + Decimal(n) + [QUOTE, 58] == Quoted(Decimal(n)) + [58]
  {
    var d := Decimal(n);
    EscapedDigits(d);
    Associative([QUOTE] + d, [QUOTE], [58]);
    assert [QUOTE] + [58] == [QUOTE, 58];
  }

  /** A key is printed as a quoted string and a colon, whatever kind it is. */
  lemma KeyText(fmt: Formatter, k: Lua)
    requires PrintsIntegers(fmt) && (k.Str? || (k.Int? && Plain(k)))
    ensures KeyImage(k).Str? && PrintKey(fmt, k) == Text(Quoted(KeyImage(k).s) + [58])
  {
    hide Quoted, Decimal, PrintsIntegers;
    if k.Int? {
      PrintInt(fmt, k.n);
      EscapedDecimal(k.n);
    }
  }

  predicate Closing(r: bytes) {
    r != [] && (r[0] == 44 || r[0] == 93 || r[0] == 125)
  }

  lemma {:induction false} ParsePrint(fmt: Formatter, num: NumberReader, v: Lua, depth: nat, r: bytes)
    requires PrintsIntegers(fmt) && ReadsIntegers(num) && Plain(v) && Print(fmt, v, depth).Text? && Closed(r)
    ensures ParseValue(num, Print(fmt, v, depth).s + r, depth) == Value(Image(v), r)
    decreases v, 3
  {
    hide Lex, PrintElements, PrintMembers, ImageElements, ImageMembers, ParseObject, ParseArray, PrintsIntegers,
         ReadsIntegers, Decimal, Closed, Quoted;
    match v
    case Table(sets) =>
      if ArrayLength(sets) > 0 {
        ParsePrintArray(fmt, num, v, depth, r);
      } else {
        ParsePrintObject(fmt, num, v, depth, r);
      }
    case Str(s) => LexQuoted(num, s, r);
    case Int(n) =>
      PrintInt(fmt, n);
      LexDecimal(num, n, r);
    case _ => LexWord(num, r);
  }

  lemma {:induction false} ParsePrintArray(fmt: Formatter, num: NumberReader, t: Lua, depth: nat, r: bytes)
    requires PrintsIntegers(fmt) && ReadsIntegers(num) && Plain(t) && Print(fmt, t, depth).Text?
    requires t.Table? && ArrayLength(t.sets) > 0
    ensures ParseValue(num, Print(fmt, t, depth).s + r, depth) == Value(Image(t), r)
    decreases t, 2
  {
    hide PrintsIntegers, ReadsIntegers, Print, PrintElement, Plain, ArrayLength, ParseElements, ParseValue, KeyOrder,
         Image, ImageElements;
    var order := KeyOrder(t.sets, ArrayLength(t.sets));
    ArrayText(fmt, t, order, depth);
    var body := PrintElements(fmt, t, order, 0, depth + 1).s;
    ElementsText(fmt, t, order, 0, depth + 1);
    var e, rest := PrintElement(fmt, t, order[0], depth + 1).s, PrintElements(fmt, t, order, 1, depth + 1).s;
    ParsePrintElements(fmt, num, t, order, 0, depth + 1, r);
    ArrayParses(num, body, e, rest, depth, ImageElements(t, order, 0), r);
  }

  lemma ArrayText(fmt: Formatter, t: Lua, order: seq<nat>, depth: nat)
    requires t.Table? && Print(fmt, t, depth).Text? && ArrayLength(t.sets) > 0
    requires order == KeyOrder(t.sets, ArrayLength(t.sets))
    ensures depth + 1 <= MAX_DEPTH && PrintElements(fmt, t, order, 0, depth + 1).Text?
    ensures Print(fmt, t, depth).s == [91] + PrintElements(fmt, t, order, 0, depth + 1).s
    ensures Image(t) == Table(ImageElements(t, order, 0))
  {
    hide PrintElements, ImageElements;
  }

  lemma ObjectText(fmt: Formatter, t: Lua, depth: nat)
    requires t.Table? && Print(fmt, t, depth).Text? && ArrayLength(t.sets) <= 0
    ensures depth + 1 <= MAX_DEPTH && PrintMembers(fmt, t, 0, depth + 1).Text?
    ensures Print(fmt, t, depth).s == [123] + PrintMembers(fmt, t, 0, depth + 1).s
    ensures Image(t) == Table(ImageMembers(t, 0))
  {
    hide PrintMembers, ImageMembers;
  }

  lemma ArrayParses(num: NumberReader, body: bytes, e: bytes, rest: bytes, depth: nat, sets: seq<Assign>, r: bytes)
    requires body == [] + (e + rest) && depth + 1 <= MAX_DEPTH
    requires ParseElements(num, e + (rest + r), 1, depth + 1) == Sets(sets, r)
    ensures ParseValue(num, [91] + body + r, depth) == Value(Table(sets), r)
  {
    hide Lex;
    var s := e + (rest + r);
    Associative([91], body, r);
    Associative(e, rest, r);
    assert [] + (e + rest) == e + rest;
    LexSingle(num, 91, s);
    assert Lex(num, s).token != ArrEnd;
  }

  lemma ObjectParses(num: NumberReader, body: bytes, m: bytes, rest: bytes, depth: nat, sets: seq<Assign>, r: bytes)
    requires body == [] + (m + rest) && depth + 1 <= MAX_DEPTH
    requires ParseMembers(num, m + (rest + r), depth + 1) == Sets(sets, r)
    ensures ParseValue(num, [123] + body + r, depth) == Value(Table(sets), r)
  {
    hide Lex;
    var s := m + (rest + r);
    Associative([123], body, r);
    Associative(m, rest, r);
    assert [] + (m + rest) == m + rest;
    LexSingle(num, 123, s);
    assert Lex(num, s).token != ObjEnd;
  }

  lemma EmptyObjectParses(num: NumberReader, r: bytes, depth: nat)
    requires depth + 1 <= MAX_DEPTH
    ensures ParseValue(num, [123] + ([125] + r), depth) == Value(Table([]), r)
  {
    hide Lex;
    LexSingle(num, 123, [125] + r);
    LexSingle(num, 125, r);
  }

  lemma {:induction false} ParsePrintElements(fmt: Formatter, num: NumberReader, t: Lua, order: seq<nat>, j: nat,
                                              depth: nat, r: bytes)
    requires PrintsIntegers(fmt) && ReadsIntegers(num) && t.Table? && Plain(t) && j < |order|
    requires PrintElement(fmt, t, order[j], depth).Text? && PrintElements(fmt, t, order, j + 1, depth).Text?
    ensures var e, rest := PrintElement(fmt, t, order[j], depth).s, PrintElements(fmt, t, order, j + 1, depth).s;
      ParseElements(num, e + (rest + r), j + 1, depth) == Sets(ImageElements(t, order, j), r)
    decreases t, 1, |order| - j
  {
    hide PrintsIntegers, ReadsIntegers, PrintElement, PrintElements, Plain, ImageElement, ParseElements, ParseValue;
    var e, rest := PrintElement(fmt, t, order[j], depth).s, PrintElements(fmt, t, order, j + 1, depth).s;
    var v := ImageElement(t, order[j]);
    if j + 1 == |order| {
      ElementsEnd(fmt, t, order, depth);
      ParsePrintElement(fmt, num, t, order[j], depth, rest + r);
      LastElement(num, e, v, r, j + 1, depth);
      assert [Assign(Int(j + 1), v)] + [] == [Assign(Int(j + 1), v)];
    } else {
      ElementsText(fmt, t, order, j + 1, depth);
      var e1, rest1 := PrintElement(fmt, t, order[j + 1], depth).s, PrintElements(fmt, t, order, j + 2, depth).s;
      Associative([44], e1 + rest1, r);
      Associative(e1, rest1, r);
      assert rest + r == [44] + (e1 + (rest1 + r));
      ParsePrintElement(fmt, num, t, order[j], depth, rest + r);
      ParsePrintElements(fmt, num, t, order, j + 1, depth, r);
      MoreElements(num, e, v, e1 + (rest1 + r), j + 1, depth, ImageElements(t, order, j + 1), r);
    }
  }

  lemma ElementsEnd(fmt: Formatter, t: Lua, order: seq<nat>, depth: nat)
    requires t.Table?
    ensures PrintElements(fmt, t, order, |order|, depth) == Text([93])
  {
  }

  lemma MembersEnd(fmt: Formatter, t: Lua, depth: nat)
    requires t.Table?
    ensures PrintMembers(fmt, t, |t.sets|, depth) == Text([125])
  {
  }

  lemma {:induction false} ParsePrintElement(fmt: Formatter, num: NumberReader, t: Lua, p: nat, depth: nat, r: bytes)
    requires PrintsIntegers(fmt) && ReadsIntegers(num) && t.Table? && Plain(t)
    requires PrintElement(fmt, t, p, depth).Text? && Closing(r)
    ensures ParseValue(num, PrintElement(fmt, t, p, depth).s + r, depth) == Value(ImageElement(t, p), r)
    decreases t, 0
  {
    if p < |t.sets| {
      assert t.sets[p] in t.sets;
      ParsePrint(fmt, num, t.sets[p].val, depth, r);
    } else {
      LexWord(num, r);
    }
  }

  lemma {:induction false} ParsePrintObject(fmt: Formatter, num: NumberReader, t: Lua, depth: nat, r: bytes)
    requires PrintsIntegers(fmt) && ReadsIntegers(num) && Plain(t) && Print(fmt, t, depth).Text?
    requires t.Table? && ArrayLength(t.sets) <= 0
    ensures ParseValue(num, Print(fmt, t, depth).s + r, depth) == Value(Image(t), r)
    decreases t, 2
  {
    hide PrintsIntegers, ReadsIntegers, Print, PrintMember, Plain, ArrayLength, ParseMembers, ParseValue, Image;
    ObjectText(fmt, t, depth);
    var body := PrintMembers(fmt, t, 0, depth + 1).s;
    if t.sets == [] {
      Associative([123], body, r);
      EmptyObjectParses(num, r, depth);
    } else {
      MembersText(fmt, t, 0, depth + 1);
      var m, rest := PrintMember(fmt, t, 0, depth + 1).s, PrintMembers(fmt, t, 1, depth + 1).s;
      ParsePrintMembers(fmt, num, t, 0, depth + 1, r);
      ObjectParses(num, body, m, rest, depth, ImageMembers(t, 0), r);
    }
  }

  lemma {:induction false} ParsePrintMembers(fmt: Formatter, num: NumberReader, t: Lua, i: nat, depth: nat, r: bytes)
    requires PrintsIntegers(fmt) && ReadsIntegers(num) && t.Table? && Plain(t) && i < |t.sets|
    requires PrintMember(fmt, t, i, depth).Text? && PrintMembers(fmt, t, i + 1, depth).Text?
    ensures var m, rest := PrintMember(fmt, t, i, depth).s, PrintMembers(fmt, t, i + 1, depth).s;
      ParseMembers(num, m + (rest + r), depth) == Sets(ImageMembers(t, i), r)
    decreases t, 1, |t.sets| - i
  {
    hide PrintsIntegers, ReadsIntegers, PrintMember, PrintMembers, Plain, Image, KeyImage, ParseMembers, ParseMember;
    var m, rest := PrintMember(fmt, t, i, depth).s, PrintMembers(fmt, t, i + 1, depth).s;
    var a := Assign(KeyImage(t.sets[i].key), Image(t.sets[i].val));
    if i + 1 == |t.sets| {
      MembersEnd(fmt, t, depth);
      ParsePrintMember(fmt, num, t, i, depth, rest + r);
      LastMember(num, m, a, r, depth);
      assert [a] + [] == [a];
    } else {
      MembersText(fmt, t, i + 1, depth);
      var m1, rest1 := PrintMember(fmt, t, i + 1, depth).s, PrintMembers(fmt, t, i + 2, depth).s;
      Associative([44], m1 + rest1, r);
      Associative(m1, rest1, r);
      assert rest + r == [44] + (m1 + (rest1 + r));
      ParsePrintMember(fmt, num, t, i, depth, rest + r);
      ParsePrintMembers(fmt, num, t, i + 1, depth, r);
      MoreMembers(num, m, a, m1 + (rest1 + r), depth, ImageMembers(t, i + 1), r);
    }
  }

  lemma {:induction false} ParsePrintMember(fmt: Formatter, num: NumberReader, t: Lua, i: nat, depth: nat, r: bytes)
    requires PrintsIntegers(fmt) && ReadsIntegers(num) && t.Table? && Plain(t) && i < |t.sets|
    requires PrintMember(fmt, t, i, depth).Text? && Closing(r)
    ensures ParseMember(num, PrintMember(fmt, t, i, depth).s + r, depth)
      == Sets([Assign(KeyImage(t.sets[i].key), Image(t.sets[i].val))], r)
    decreases t, 0
  {
    assert t.sets[i] in t.sets;
    var key, val := t.sets[i].key, t.sets[i].val;
    MemberText(fmt, t, i, depth);
    KeyText(fmt, key);
    var k, x := KeyImage(key).s, Print(fmt, val, depth).s;
    ParsePrint(fmt, num, val, depth, r);
    MemberParses(num, k, x, Image(val), r, depth);
    Associative(Quoted(k) + [58], x, r);
    Associative(Quoted(k), [58], x + r);
  }

  // ---------------------------------------------------------------- in terms of maps

  /** Nothing that the text cannot say: no nil, no holes in an array, and text for the keys of an object. */
  predicate Faithful(v: Lua) {
    v != Nil && (v.Table? ==> SameShape(v.sets) && forall e :: e in v.sets ==> Faithful(e.val))
  }

  predicate SameShape(sets: seq<Assign>) {
    IsArray(sets) || forall e :: e in sets ==> e.key.Str?
  }

  predicate NestedAtMost(v: Lua, d: int) {
    v.Table? ==> d > 0 && forall e :: e in v.sets ==> NestedAtMost(e.val, d - 1)
  }

  lemma ImageIsNotNil(v: Lua)
    ensures Image(v) != Nil
  {
  }

  lemma {:induction false} ImageElementsAt(t: Lua, order: seq<nat>, j: nat, k: nat)
    requires t.Table? && j <= k < |order|
    ensures ImageElements(t, order, j)[k - j] == Assign(Int(k + 1), ImageElement(t, order[k]))
    decreases k - j
  {
    if j < k {
      ImageElementsAt(t, order, j + 1, k);
    }
  }

  lemma {:induction false} ImageMembersAt(t: Lua, i: nat, k: nat)
    requires t.Table? && i <= k < |t.sets|
    ensures ImageMembers(t, i)[k - i] == Assign(KeyImage(t.sets[k].key), Image(t.sets[k].val))
    decreases k - i
  {
    if i < k {
      ImageMembersAt(t, i + 1, k);
    }
  }

  lemma ImageOfElement(t: Lua, k: nat)
    requires t.Table? && DistinctKeys(t.sets) && IsArray(t.sets) && k < |t.sets|
    ensures var p := KeyOrder(t.sets, |t.sets|)[k];
      && p < |t.sets| && t.sets[p] in t.sets && t.sets[p].key == Int(k + 1)
      && ImageElements(t, KeyOrder(t.sets, |t.sets|), 0)[k] == Assign(Int(k + 1), Image(t.sets[p].val))
  {
    hide IsArray, Image;
    KeyOrderFinds(t.sets, k);
    ImageElementsAt(t, KeyOrder(t.sets, |t.sets|), 0, k);
  }

  lemma ArrayIsReassigned(t: Lua)
    requires t.Table? && DistinctKeys(t.sets) && IsArray(t.sets)
    ensures Reassigned(t, Table(ImageElements(t, KeyOrder(t.sets, |t.sets|), 0)), Image)
  {
    hide IsArray, Image, ImageElements, KeyOrder;
    var order := KeyOrder(t.sets, |t.sets|);
    var u := ImageElements(t, order, 0);
    forall k | 0 <= k < |u|
      ensures u[k].key == Int(k + 1)
      ensures exists e :: e in t.sets && u[k] == Assign(e.key, Image(e.val))
    {
      ImageOfElement(t, k);
    }
    forall e | e in t.sets
      ensures Assign(e.key, Image(e.val)) in u
    {
      ArrayKeyInRange(t.sets, e);
      var k := e.key.n - 1;
      ImageOfElement(t, k);
      assert t.sets[order[k]] == e;
      assert u[k] in u;
    }
  }

  lemma SameKeysDistinct(s: seq<Assign>, u: seq<Assign>)
    requires DistinctKeys(s) && |u| == |s| && forall k :: 0 <= k < |s| ==> u[k].key == s[k].key
    ensures DistinctKeys(u)
  {
  }

  lemma ObjectIsReassigned(t: Lua)
    requires t.Table? && DistinctKeys(t.sets) && forall e :: e in t.sets ==> e.key.Str?
    ensures Reassigned(t, Table(ImageMembers(t, 0)), Image)
  {
    hide Image, ImageMembers, DistinctKeys;
    var u := ImageMembers(t, 0);
    forall k | 0 <= k < |u|
      ensures t.sets[k] in t.sets && u[k] == Assign(t.sets[k].key, Image(t.sets[k].val))
    {
      assert t.sets[k] in t.sets;
      ImageMembersAt(t, 0, k);
    }
    SameKeysDistinct(t.sets, u);
    forall e | e in t.sets
      ensures Assign(e.key, Image(e.val)) in u
    {
      var k :| 0 <= k < |t.sets| && t.sets[k] == e;
      assert u[k] in u;
    }
  }

  lemma ObjectLength(sets: seq<Assign>)
    requires forall e :: e in sets ==> e.key.Str?
    ensures ArrayLength(sets) <= 0
  {
    if sets != [] {
      assert sets[0] in sets;
    }
  }

  /** A hole in an array comes back as an element. */
  lemma HoleIsFilled(t: Lua)
    requires Keyed(t) && ArrayLength(t.sets) > 0 && !IsArray(t.sets)
    ensures Meaning(Image(t)) != Meaning(t)
  {
    hide ImageElements, ImageElement, KeyOrder, IsArray, Contents;
    var n := ArrayLength(t.sets);
    var j := MissingKey(t.sets);
    var u := Table(ImageElements(t, KeyOrder(t.sets, n), 0));
    assert Image(t) == u;
    HoleIsNull(t, n, j);
    ContentsHas(u, n, j - 1);
    if VInt(j) in Contents(t, |t.sets|) {
      var i := ContentsComesFrom(t, |t.sets|, VInt(j));
      IndexOfFinds(t.sets, t.sets[i]);
    }
  }

  /** The elements of the image are numbered; that of a key which is not there is null. */
  lemma HoleIsNull(t: Lua, n: nat, j: nat)
    requires t.Table? && 1 <= j <= n && IndexOf(t.sets, Int(j)) == |t.sets|
    ensures var u := Table(ImageElements(t, KeyOrder(t.sets, n), 0));
      Keyed(u) && |u.sets| == n && u.sets[j - 1] == Assign(Int(j), Null)
  {
    hide ImageElements, Image;
    var order := KeyOrder(t.sets, n);
    var u := ImageElements(t, order, 0);
    forall k | 0 <= k < n
      ensures u[k] == Assign(Int(k + 1), ImageElement(t, order[k]))
    {
      ImageElementsAt(t, order, 0, k);
    }
  }

  lemma ObjectImage(t: Lua)
    requires t.Table? && ArrayLength(t.sets) <= 0
    ensures Image(t) == Table(ImageMembers(t, 0))
  {
  }

  /** A number as a key of an object comes back as text. */
  lemma NumberKeyIsText(t: Lua, e: Assign)
    requires Keyed(t) && ArrayLength(t.sets) <= 0 && e in t.sets && e.key.Int? && e.val != Nil
    requires forall d :: d in t.sets ==> d.key.Str? || d.key.Int?
    ensures Meaning(Image(t)) != Meaning(t)
  {
    hide ArrayLength, Image, Contents, Meaning, ImageMembers;
    var i :| 0 <= i < |t.sets| && t.sets[i] == e;
    ContentsHas(t, |t.sets|, i);
    var u := Table(ImageMembers(t, 0));
    ObjectImage(t);
    TableMeans(t);
    TableMeans(u);
    KeyMeans(e.key);
    if VInt(e.key.n) in Contents(u, |u.sets|) {
      var k := KeyComesFrom(u, |u.sets|, VInt(e.key.n));
      assert t.sets[k] in t.sets;
      ImageMembersAt(t, 0, k);
      KeyMeans(KeyImage(t.sets[k].key));
    }
  }

  lemma TableMeans(t: Lua)
    requires t.Table?
    ensures Meaning(t) == VTable(Contents(t, |t.sets|))
  {
  }

  lemma KeyMeans(k: Lua)
    ensures k.Int? ==> Meaning(k) == VInt(k.n)
    ensures k.Str? ==> Meaning(k) == VStr(k.s)
  {
  }

  lemma ShapeLost(t: Lua)
    requires t.Table? && WellFormed(t) && Plain(t) && !SameShape(t.sets)
    ensures Meaning(Image(t)) != Meaning(t)
  {
    hide Image, Meaning, IsArray;
    var e :| e in t.sets && !e.key.Str?;
    if ArrayLength(t.sets) > 0 {
      HoleIsFilled(t);
    } else {
      NumberKeyIsText(t, e);
    }
  }

  lemma ShapeKept(t: Lua)
    requires t.Table? && WellFormed(t) && SameShape(t.sets)
    ensures Image(t).Table? && Reassigned(t, Image(t), Image)
  {
    hide Reassigned;
    if forall e :: e in t.sets ==> e.key.Str? {
      ObjectLength(t.sets);
      ObjectIsReassigned(t);
    } else {
      ArrayIsReassigned(t);
    }
  }

  /** What comes back means the same exactly when the value holds nothing the text cannot say. */
  lemma {:induction false} SameMeaningIff(v: Lua)
    requires WellFormed(v) && Plain(v)
    ensures Meaning(Image(v)) == Meaning(v) <==> Faithful(v)
    decreases v
  {
    if v.Table? {
      hide Image, Meaning, SameShape, Reassigned;
      if SameShape(v.sets) {
        forall e | e in v.sets
          ensures e.val != Nil && Image(e.val) != Nil
          ensures Meaning(Image(e.val)) == Meaning(e.val) <==> Faithful(e.val)
        {
          ImageIsNotNil(e.val);
          SameMeaningIff(e.val);
        }
        ShapeKept(v);
        MeaningOfReassigned(v, Image(v), Image);
      } else {
        ShapeLost(v);
      }
    }
  }

  // ---------------------------------------------------------------- when printing succeeds

  lemma {:induction false} ElementsPrintIff(fmt: Formatter, t: Lua, order: seq<nat>, j: nat, depth: nat)
    requires t.Table? && j <= |order|
    ensures PrintElements(fmt, t, order, j, depth).Text? <==>
      forall k :: j <= k < |order| ==> PrintElement(fmt, t, order[k], depth).Text?
    decreases |order| - j
  {
    hide PrintElement;
    if j < |order| {
      ElementsPrintIff(fmt, t, order, j + 1, depth);
    }
  }

  lemma {:induction false} MembersPrintIff(fmt: Formatter, t: Lua, i: nat, depth: nat)
    requires t.Table? && i <= |t.sets|
    ensures PrintMembers(fmt, t, i, depth).Text? <==>
      forall k :: i <= k < |t.sets| ==> PrintMember(fmt, t, k, depth).Text?
    decreases |t.sets| - i
  {
    hide PrintMembers, PrintMember;
    MembersPrintStep(fmt, t, i, depth);
    if i < |t.sets| {
      MembersPrintIff(fmt, t, i + 1, depth);
    }
  }

  lemma MembersPrintStep(fmt: Formatter, t: Lua, i: nat, depth: nat)
    requires t.Table? && i <= |t.sets|
    ensures PrintMembers(fmt, t, i, depth).Text? <==>
      (i == |t.sets| || (PrintMember(fmt, t, i, depth).Text? && PrintMembers(fmt, t, i + 1, depth).Text?))
  {
    hide PrintMember;
  }

  lemma ArrayPrintsIff(fmt: Formatter, t: Lua, depth: nat)
    requires t.Table? && DistinctKeys(t.sets) && IsArray(t.sets)
    ensures PrintElements(fmt, t, KeyOrder(t.sets, |t.sets|), 0, depth).Text? <==>
      forall e :: e in t.sets ==> Print(fmt, e.val, depth).Text?
  {
    hide Print, IsArray, PrintElements, KeyOrder;
    var order := KeyOrder(t.sets, |t.sets|);
    ElementsPrintIff(fmt, t, order, 0, depth);
    forall k | 0 <= k < |order|
      ensures order[k] < |t.sets| && t.sets[order[k]] in t.sets
    {
      KeyOrderFinds(t.sets, k);
    }
    forall e | e in t.sets
      ensures exists k :: 0 <= k < |order| && order[k] < |t.sets| && t.sets[order[k]] == e
    {
      ArrayKeyInRange(t.sets, e);
      KeyOrderFinds(t.sets, e.key.n - 1);
      assert t.sets[order[e.key.n - 1]] == e;
    }
  }

  lemma ObjectPrintsIff(fmt: Formatter, t: Lua, depth: nat)
    requires t.Table? && forall e :: e in t.sets ==> e.key.Str?
    ensures PrintMembers(fmt, t, 0, depth).Text? <==> forall e :: e in t.sets ==> Print(fmt, e.val, depth).Text?
  {
    hide Print, PrintMembers;
    MembersPrintIff(fmt, t, 0, depth);
    forall k | 0 <= k < |t.sets|
      ensures t.sets[k] in t.sets
      ensures PrintMember(fmt, t, k, depth).Text? <==> Print(fmt, t.sets[k].val, depth).Text?
    {
      assert t.sets[k] in t.sets;
    }
    if PrintMembers(fmt, t, 0, depth).Text? {
      forall e | e in t.sets
        ensures Print(fmt, e.val, depth).Text?
      {
        var k :| 0 <= k < |t.sets| && t.sets[k] == e;
        assert PrintMember(fmt, t, k, depth).Text?;
      }
    }
  }

  lemma TablePrintsIff(fmt: Formatter, t: Lua, depth: nat)
    requires t.Table? && WellFormed(t) && SameShape(t.sets)
    ensures Print(fmt, t, depth).Text? <==>
      depth < MAX_DEPTH && forall e :: e in t.sets ==> Print(fmt, e.val, depth + 1).Text?
  {
    hide PrintElements, PrintMembers, KeyOrder;
    if forall e :: e in t.sets ==> e.key.Str? {
      ObjectLength(t.sets);
      ObjectPrintsIff(fmt, t, depth + 1);
    } else {
      ArrayPrintsIff(fmt, t, depth + 1);
    }
  }

  lemma ScalarPrints(fmt: Formatter, v: Lua, depth: nat)
    requires !v.Table? && !v.Double?
    ensures Print(fmt, v, depth).Text?
  {
  }

  /** Such a value is printed exactly when it is nested at most 1000 deep. */
  lemma {:induction false} PrintsIff(fmt: Formatter, v: Lua, depth: nat)
    requires WellFormed(v) && Plain(v) && Faithful(v)
    ensures Print(fmt, v, depth).Text? <==> NestedAtMost(v, MAX_DEPTH - depth)
    decreases v
  {
    hide Print, SameShape;
    if !v.Table? {
      ScalarPrints(fmt, v, depth);
    } else {
      TablePrintsIff(fmt, v, depth);
      forall e | e in v.sets
        ensures Print(fmt, e.val, depth + 1).Text? <==> NestedAtMost(e.val, MAX_DEPTH - depth - 1)
      {
        PrintsIff(fmt, e.val, depth + 1);
      }
    }
  }

  // ---------------------------------------------------------------- no NUL

  lemma {:induction false} PrintHasNoNul(fmt: Formatter, v: Lua, depth: nat)
    requires Formats(fmt) && Print(fmt, v, depth).Text?
    ensures Print(fmt, v, depth).s != [] && 0 !in Print(fmt, v, depth).s
    decreases v, 2
  {
    hide PrintElements, PrintMembers;
    match v
    case Str(s) => EscapedHasNoNul(s);
    case Table(sets) =>
      if ArrayLength(sets) > 0 {
        ElementsHaveNoNul(fmt, v, KeyOrder(sets, ArrayLength(sets)), 0, depth + 1);
      } else {
        MembersHaveNoNul(fmt, v, 0, depth + 1);
      }
    case _ =>
  }

  lemma {:induction false} ElementsHaveNoNul(fmt: Formatter, t: Lua, order: seq<nat>, j: nat, depth: nat)
    requires Formats(fmt) && t.Table? && j <= |order| && PrintElements(fmt, t, order, j, depth).Text?
    ensures 0 !in PrintElements(fmt, t, order, j, depth).s
    decreases t, 1, |order| - j
  {
    hide PrintElements, Print, Formats;
    if j == |order| {
      NoElements(fmt, t, order, depth);
    } else {
      ElementsText(fmt, t, order, j, depth);
      if order[j] < |t.sets| {
        PrintHasNoNul(fmt, t.sets[order[j]].val, depth);
      }
      ElementsHaveNoNul(fmt, t, order, j + 1, depth);
    }
  }

  lemma NoElements(fmt: Formatter, t: Lua, order: seq<nat>, depth: nat)
    requires t.Table?
    ensures PrintElements(fmt, t, order, |order|, depth).Text? && 0 !in PrintElements(fmt, t, order, |order|, depth).s
  {
  }

  lemma NoMembers(fmt: Formatter, t: Lua, depth: nat)
    requires t.Table?
    ensures PrintMembers(fmt, t, |t.sets|, depth).Text? && 0 !in PrintMembers(fmt, t, |t.sets|, depth).s
  {
  }

  lemma KeyHasNoNul(fmt: Formatter, k: Lua)
    requires Formats(fmt) && PrintKey(fmt, k).Text?
    ensures 0 !in PrintKey(fmt, k).s
  {
    if k.Str? {
      EscapedHasNoNul(k.s);
    }
  }

  lemma {:induction false} MembersHaveNoNul(fmt: Formatter, t: Lua, i: nat, depth: nat)
    requires Formats(fmt) && t.Table? && i <= |t.sets| && PrintMembers(fmt, t, i, depth).Text?
    ensures 0 !in PrintMembers(fmt, t, i, depth).s
    decreases t, 1, |t.sets| - i
  {
    hide PrintMembers, PrintMember, Print, PrintKey, Formats;
    if i == |t.sets| {
      NoMembers(fmt, t, depth);
    } else {
      MembersText(fmt, t, i, depth);
      MemberText(fmt, t, i, depth);
      KeyHasNoNul(fmt, t.sets[i].key);
      PrintHasNoNul(fmt, t.sets[i].val, depth);
      MembersHaveNoNul(fmt, t, i + 1, depth);
    }
  }

  // ---------------------------------------------------------------- main results

  lemma DecodeAll(num: NumberReader, s: bytes, v: Lua)
    requires s != [] && 0 !in s && ParseValue(num, s, 0) == Value(v, [])
    ensures Decode(num, s) == Success(v)
  {
    hide ParseValue;
    assert s[0] in s && (|s| >= 2 ==> s[1] in s);
  }

  /** Whatever prints is read back as its image. */
  lemma DecodePrint(fmt: Formatter, num: NumberReader, v: Lua)
    requires PrintsIntegers(fmt) && ReadsIntegers(num)
    requires Plain(v) && Print(fmt, v, 0).Text?
    ensures Decode(num, Print(fmt, v, 0).s) == Success(Image(v))
  {
    hide Print, ParseValue, Decode;
    ParsePrint(fmt, num, v, 0, []);
    var s := Print(fmt, v, 0).s;
    assert s + [] == s;
    PrintHasNoNul(fmt, v, 0);
    DecodeAll(num, s, Image(v));
  }

  /** Null, booleans, byte strings, integers of at most 14 digits, arrays without holes and objects with text
      keys, nested at most 1000 deep, in whatever order the keys are visited: printing succeeds and decoding gives
      back the same value. */
  lemma RoundTrip(fmt: Formatter, num: NumberReader, v: Lua)
    requires PrintsIntegers(fmt) && ReadsIntegers(num)
    requires WellFormed(v) && Plain(v) && Faithful(v) && NestedAtMost(v, MAX_DEPTH)
    ensures Print(fmt, v, 0).Text?
    ensures var d := Decode(num, Print(fmt, v, 0).s);
      d.Success? && Meaning(d.v) == Meaning(v)
  {
    hide Print, Decode, Meaning;
    PrintsIff(fmt, v, 0);
    DecodePrint(fmt, num, v);
    SameMeaningIff(v);
  }

  /** Of the values that print, no others come back the same. */
  lemma RoundTripOnlyIf(fmt: Formatter, num: NumberReader, v: Lua)
    requires PrintsIntegers(fmt) && ReadsIntegers(num)
    requires WellFormed(v) && Plain(v) && Print(fmt, v, 0).Text?
    ensures var d := Decode(num, Print(fmt, v, 0).s);
      d.Success? && (Meaning(d.v) == Meaning(v) <==> Faithful(v))
  {
    hide Print, Decode, Meaning;
    DecodePrint(fmt, num, v);
    SameMeaningIff(v);
  }
}
