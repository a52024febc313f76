/** Printed JSON with whitespace between its tokens: it decodes to the same value. */
module JsonSpaced {
  import opened Bytes
  import opened LuaValues
  import opened LuaTables
  import opened JsonUnicode
  import opened JsonString
  import opened JsonPrinter
  import opened JsonParser
  import opened JsonRoundTrip
  import opened JsonGrammar
  import opened Options

  // ---------------------------------------------------------------- respacing

  /** The tree without its whitespace. */
  function Tight(d: Doc): Doc
    decreases d
  {
    match d
    case True(_) => True([])
    case False(_) => False([])
    case Null(_) => Doc.Null([])
    case String(_, cs) => String([], cs)
    case Number(_, digits, v) => Number([], digits, v)
    case Array(_, _, items) => Array([], [], TightItems(items))
    case Object(_, _, members) => Object([], [], TightMembers(members))
  }

  function TightItems(items: seq<Item>): (r: seq<Item>)
    ensures |r| == |items|
    decreases items
  {
    if items == [] then [] else [Item(Tight(items[0].val), [])] + TightItems(items[1..])
  }

  function TightMembers(members: seq<Entry>): (r: seq<Entry>)
    ensures |r| == |members|
    decreases members
  {
    if members == [] then [] else
      [Entry([], members[0].key, [], Tight(members[0].val), [])] + TightMembers(members[1..])
  }

  /** There is only whitespace where whitespace may be. */
  predicate Blanks(d: Doc)
    decreases d
  {
    Blank(d.w) &&
    match d
    case Array(_, gap, items) => Blank(gap) && forall i :: i in items ==> Blank(i.after) && Blanks(i.val)
    case Object(_, gap, members) =>
      Blank(gap) && forall m :: m in members ==> Blank(m.w) && Blank(m.colon) && Blank(m.after) && Blanks(m.val)
    case _ => true
  }

  /** A number that is read as such whatever closes it. */
  ghost predicate FirmNumber(num: NumberReader, digits: bytes, v: Lua) {
    && digits != [] && (digits[0] == 45 || 48 <= digits[0] <= 57) && 0 !in digits
    && forall r :: Closed(r) ==> num(digits + r) == NumberRead(v, |digits|)
  }

  /** Proper strings, and such numbers. */
  ghost predicate Firm(num: NumberReader, d: Doc)
    decreases d
  {
    match d
    case String(_, cs) => GoodChars(cs)
    case Number(_, digits, v) => FirmNumber(num, digits, v)
    case Array(_, _, items) => forall i :: i in items ==> Firm(num, i.val)
    case Object(_, _, members) => forall m :: m in members ==> GoodChars(m.key) && Firm(num, m.val)
    case _ => true
  }

  lemma BlankIsClosed(w: bytes, r: bytes)
    requires Blank(w) && Closed(r)
    ensures Closed(w + r)
  {
    if w == [] {
      assert w + r == r;
    } else {
      assert w[0] in w && (w + r)[0] == w[0];
    }
  }

  lemma FirmIsRead(num: NumberReader, digits: bytes, v: Lua, r: bytes)
    requires FirmNumber(num, digits, v) && Closed(r)
    ensures digits != [] && NumberStart(digits + r) && num(digits + r) == NumberRead(v, |digits|)
  {
    assert (digits + r)[0] == digits[0];
  }

  /** Whatever whitespace there is, such a tree is read as it should. */
  lemma {:induction false} FirmIsGood(num: NumberReader, d: Doc, r: bytes)
    requires Blanks(d) && Firm(num, d) && Closed(r)
    ensures Good(num, d, r)
    decreases d
  {
    hide GoodItems, GoodMembers, FirmNumber, NumberStart, Blank, Closed, GoodChars;
    match d
    case Number(_, digits, v) => FirmIsRead(num, digits, v, r);
    case Array(_, _, items) => FirmItemsAreGood(num, items, r);
    case Object(_, _, members) => FirmMembersAreGood(num, members, r);
    case _ =>
  }

  lemma {:induction false} FirmItemsAreGood(num: NumberReader, items: seq<Item>, r: bytes)
    requires forall i :: i in items ==> Blank(i.after) && Blanks(i.val) && Firm(num, i.val)
    ensures GoodItems(num, items, r)
    decreases items
  {
    hide Good, Blank, Blanks, Firm;
    if items != [] {
      var first, rest := items[0], items[1..];
      assert first in items && forall i :: i in rest ==> i in items;
      var tail := if |items| == 1 then [93] + r else [44] + SpellItems(rest, r);
      assert Closed(tail);
      BlankIsClosed(first.after, tail);
      FirmIsGood(num, first.val, first.after + tail);
      FirmItemsAreGood(num, rest, r);
    }
  }

  lemma {:induction false} FirmMembersAreGood(num: NumberReader, members: seq<Entry>, r: bytes)
    requires forall m :: m in members ==>
      Blank(m.w) && Blank(m.colon) && Blank(m.after) && Blanks(m.val) && GoodChars(m.key) && Firm(num, m.val)
    ensures GoodMembers(num, members, r)
    decreases members
  {
    hide Good, Blank, Blanks, Firm, GoodChars;
    if members != [] {
      var first, rest := members[0], members[1..];
      assert first in members && forall m :: m in rest ==> m in members;
      var tail := if |members| == 1 then [125] + r else [44] + SpellMembers(rest, r);
      assert Closed(tail);
      BlankIsClosed(first.after, tail);
      FirmIsGood(num, first.val, first.after + tail);
      FirmMembersAreGood(num, rest, r);
    }
  }

  /** Whitespace does not matter to what a tree stands for. */
  lemma {:induction false} TightIsSame(num: NumberReader, d: Doc, k: int)
    ensures ValueOf(Tight(d)) == ValueOf(d)
    ensures Within(Tight(d), k) <==> Within(d, k)
    ensures Firm(num, Tight(d)) <==> Firm(num, d)
    ensures Blanks(Tight(d))
    decreases d
  {
    hide FirmNumber, GoodChars, ItemSets, MemberSets, TightItems, TightMembers, CharsValue;
    match d
    case Array(_, _, items) => TightItemsAreSame(num, items, 1, k - 1);
    case Object(_, _, members) => TightMembersAreSame(num, members, k - 1);
    case _ =>
  }

  lemma {:induction false} TightItemsAreSame(num: NumberReader, items: seq<Item>, i: nat, k: int)
    ensures var r := TightItems(items);
      && ItemSets(r, i) == ItemSets(items, i)
      && ((forall x :: x in r ==> Within(x.val, k)) <==> forall x :: x in items ==> Within(x.val, k))
      && ((forall x :: x in r ==> Firm(num, x.val)) <==> forall x :: x in items ==> Firm(num, x.val))
      && (forall x :: x in r ==> Blank(x.after) && Blanks(x.val))
    decreases items
  {
    hide Within, Firm, Blanks, Tight, ValueOf;
    if items != [] {
      var first, rest := items[0], items[1..];
      TightIsSame(num, first.val, k);
      TightItemsAreSame(num, rest, i + 1, k);
      var r := TightItems(items);
      assert r[0] == Item(Tight(first.val), []) && r[1..] == TightItems(rest);
      assert forall x :: x in items <==> x == first || x in rest;
      assert forall x :: x in r <==> x == r[0] || x in r[1..];
    }
  }

  lemma {:induction false} TightMembersAreSame(num: NumberReader, members: seq<Entry>, k: int)
    ensures var r := TightMembers(members);
      && MemberSets(r) == MemberSets(members)
      && ((forall x :: x in r ==> Within(x.val, k)) <==> forall x :: x in members ==> Within(x.val, k))
      && ((forall x :: x in r ==> GoodChars(x.key) && Firm(num, x.val))
          <==> forall x :: x in members ==> GoodChars(x.key) && Firm(num, x.val))
      && (forall x :: x in r ==> Blank(x.w) && Blank(x.colon) && Blank(x.after) && Blanks(x.val))
    decreases members
  {
    hide Within, Firm, Blanks, Tight, ValueOf, GoodChars, CharsValue;
    if members != [] {
      var first, rest := members[0], members[1..];
      TightIsSame(num, first.val, k);
      TightMembersAreSame(num, rest, k);
      var r := TightMembers(members);
      assert r[0] == Entry([], first.key, [], Tight(first.val), []) && r[1..] == TightMembers(rest);
      assert forall x :: x in members <==> x == first || x in rest;
      assert forall x :: x in r <==> x == r[0] || x in r[1..];
    }
  }

  // ---------------------------------------------------------------- the tree of a printed value

  function CharOf(c: byte): Char {
    if ShortEscape(c) != 0 then Letter(ShortEscape(c))
    else if c < 32 || c == 127 then Unicode(EscapeOf(c), [c]) else Raw(c)
  }

  function CharsOf(s: bytes): seq<Char> {
    if s == [] then [] else [CharOf(s[0])] + CharsOf(s[1..])
  }

  lemma CharOfIs(c: byte)
    ensures GoodChar(CharOf(c)) && CharText(CharOf(c)) == EscapeOf(c)
  {
    if ShortEscape(c) == 0 && (c < 32 || c == 127) {
      var e := EscapeOf(c);
      PieceReadsBack(c, []);
      assert e + [] == e;
    }
  }

  lemma {:induction false} EscapedFirst(s: bytes)
    requires s != []
    ensures Escaped(s) == EscapeOf(s[0]) + Escaped(s[1..])
    decreases |s|
  {
    hide EscapeOf;
    var init, last := s[..|s| - 1], s[|s| - 1];
    if init == [] {
      assert s[1..] == [] && Escaped(init) == [];
      assert [] + EscapeOf(last) == EscapeOf(last) + [];
    } else {
      EscapedFirst(init);
      assert init[1..] == s[1..][..|s| - 2] && s[1..][|s| - 2] == last;
      Associative(EscapeOf(s[0]), Escaped(init[1..]), EscapeOf(last));
    }
  }

  lemma {:induction false} CharsOfSpell(s: bytes, r: bytes)
    ensures SpellChars(CharsOf(s), r) == Escaped(s) + r && GoodChars(CharsOf(s))
    decreases |s|
  {
    hide EscapeOf, CharText, CharOf, GoodChar;
    if s == [] {
      assert Escaped(s) + r == r;
    } else {
      CharOfIs(s[0]);
      CharsOfSpell(s[1..], r);
      EscapedFirst(s);
      Associative(EscapeOf(s[0]), Escaped(s[1..]), r);
      assert CharsOf(s)[1..] == CharsOf(s[1..]);
      assert forall c :: c in CharsOf(s) <==> c == CharOf(s[0]) || c in CharsOf(s[1..]);
    }
  }

  lemma QuotedSpells(s: bytes, r: bytes)
    ensures Quoted(s) + r == [34] + SpellChars(CharsOf(s), [34] + r) && GoodChars(CharsOf(s))
  {
    CharsOfSpell(s, [34] + r);
    assert Quoted(s) + r == [34] + (Escaped(s) + ([34] + r));
  }

  function KeyChars(k: Lua): seq<Char> {
    if KeyImage(k).Str? then CharsOf(KeyImage(k).s) else []
  }

  /** The tree of the text that a value without floats is printed as. */
  function TreeOf(v: Lua): Doc
    decreases v
  {
    match v
    case Bool(b) => if b then True([]) else False([])
    case Int(n) => Number([], Decimal(n), v)
    case Str(s) => String([], CharsOf(s))
    case Table(sets) =>
      if ArrayLength(sets) > 0 then Array([], [], ItemsOf(v, KeyOrder(sets, ArrayLength(sets)), 0))
      else Object([], [], MembersOf(v, 0))
    case _ => Doc.Null([])
  }

  function ItemOf(t: Lua, p: nat): Doc
    requires t.Table?
    decreases t, 0
  {
    if p >= |t.sets| then Doc.Null([]) else TreeOf(t.sets[p].val)
  }

  function ItemsOf(t: Lua, order: seq<nat>, j: nat): (r: seq<Item>)
    requires t.Table? && j <= |order|
    ensures |r| == |order| - j
    decreases t, 1, |order| - j
  {
    if j == |order| then [] else [Item(ItemOf(t, order[j]), [])] + ItemsOf(t, order, j + 1)
  }

  function MembersOf(t: Lua, i: nat): (r: seq<Entry>)
    requires t.Table? && i <= |t.sets|
    ensures |r| == |t.sets| - i
    decreases t, 1, |t.sets| - i
  {
    if i == |t.sets| then [] else
      [Entry([], KeyChars(t.sets[i].key), [], TreeOf(t.sets[i].val), [])] + MembersOf(t, i + 1)
  }

  /** Its text is what is printed. */
  lemma {:induction false} TreeIsPrinted(fmt: Formatter, num: NumberReader, v: Lua, depth: nat, r: bytes)
    requires PrintsIntegers(fmt) && ReadsIntegers(num) && Plain(v) && Print(fmt, v, depth).Text?
    ensures Spell(TreeOf(v), r) == Print(fmt, v, depth).s + r
    ensures Firm(num, TreeOf(v)) && Within(TreeOf(v), 1000 - depth) && Blanks(TreeOf(v))
    decreases v, 3
  {
    hide PrintElements, PrintMembers, ItemsOf, MembersOf, PrintsIntegers, ReadsIntegers, Decimal, Quoted, FirmNumber,
      CharsOf, SpellChars, SpellItems, SpellMembers, KeyOrder, GoodChars;
    match v
    case Int(n) =>
      PrintInt(fmt, n);
      DecimalIsFirm(num, n);
      NothingBefore(Decimal(n) + r);
    case Str(x) =>
      QuotedSpells(x, r);
      NothingBefore([34] + SpellChars(CharsOf(x), [34] + r));
    case Table(sets) =>
      if ArrayLength(sets) > 0 {
        ArrayIsPrinted(fmt, num, v, depth, r);
      } else {
        ObjectIsPrinted(fmt, num, v, depth, r);
      }
    case _ => WordsSpelled(r);
  }

  lemma NothingBefore(s: bytes)
    ensures [] + s == s
  {
  }

  lemma WordsSpelled(r: bytes)
    ensures [] + ([116, 114, 117, 101] + r) == TRUE + r
    ensures [] + ([102, 97, 108, 115, 101] + r) == FALSE + r
    ensures [] + ([110, 117, 108, 108] + r) == NULL + r
  {
  }

  lemma DecimalIsFirm(num: NumberReader, n: int)
    requires ReadsIntegers(num) && -EXACT < n < EXACT
    ensures FirmNumber(num, Decimal(n), Int(n))
  {
    hide Digits;
    var d := Digits(if n < 0 then -n else n);
    assert d[0] in d;
    assert forall c :: c in Decimal(n) ==> c == 45 || c in d;
  }

  lemma {:induction false} ArrayIsPrinted(fmt: Formatter, num: NumberReader, t: Lua, depth: nat, r: bytes)
    requires PrintsIntegers(fmt) && ReadsIntegers(num) && Plain(t) && Print(fmt, t, depth).Text?
    requires t.Table? && ArrayLength(t.sets) > 0
    ensures Spell(TreeOf(t), r) == Print(fmt, t, depth).s + r
    ensures Firm(num, TreeOf(t)) && Within(TreeOf(t), 1000 - depth) && Blanks(TreeOf(t))
    decreases t, 2
  {
    hide PrintsIntegers, ReadsIntegers, Print, PrintElement, Plain, ArrayLength, KeyOrder, SpellItems, ItemsOf, ItemOf,
      PrintElements, Spell, Firm, Within, Blanks, Separator;
    var order := KeyOrder(t.sets, ArrayLength(t.sets));
    var items := ItemsOf(t, order, 0);
    ArrayText(fmt, t, order, depth);
    TreeOfArray(t, order);
    ElementsText(fmt, t, order, 0, depth + 1);
    ItemsArePrinted(fmt, num, t, order, 0, depth + 1, r);
    ArraySpelled(num, items, PrintElement(fmt, t, order[0], depth + 1).s, PrintElements(fmt, t, order, 1, depth + 1).s, r,
                 1000 - depth);
  }

  lemma ArraySpelled(num: NumberReader, items: seq<Item>, e: bytes, rest: bytes, r: bytes, k: int)
    requires items != [] && SpellItems(items, r) == e + (rest + r) && k > 0
    requires forall i :: i in items ==> Firm(num, i.val) && Within(i.val, k - 1) && Blank(i.after) && Blanks(i.val)
    ensures var d := Array([], [], items);
      Spell(d, r) == [91] + (Separator(0) + (e + rest)) + r && Firm(num, d) && Within(d, k) && Blanks(d)
  {
    hide SpellItems, Blank;
    BlankNothing();
    NothingBefore(e + rest);
    Associative(e, rest, r);
    Associative([91], e + rest, r);
    NothingBefore([91] + SpellItems(items, r));
  }

  lemma BlankNothing()
    ensures Blank([])
  {
  }

  lemma TreeOfArray(t: Lua, order: seq<nat>)
    requires t.Table? && ArrayLength(t.sets) > 0 && order == KeyOrder(t.sets, ArrayLength(t.sets))
    ensures TreeOf(t) == Array([], [], ItemsOf(t, order, 0))
  {
    hide ItemsOf;
  }

  lemma {:induction false} ItemsArePrinted(fmt: Formatter, num: NumberReader, t: Lua, order: seq<nat>, j: nat,
                                           depth: nat, r: bytes)
    requires PrintsIntegers(fmt) && ReadsIntegers(num) && t.Table? && Plain(t) && j < |order|
    requires PrintElement(fmt, t, order[j], depth).Text? && PrintElements(fmt, t, order, j + 1, depth).Text?
    ensures var items := ItemsOf(t, order, j);
      && SpellItems(items, r)
         == PrintElement(fmt, t, order[j], depth).s + (PrintElements(fmt, t, order, j + 1, depth).s + r)
      && forall i :: i in items ==> Firm(num, i.val) && Within(i.val, 1000 - depth) && Blank(i.after) && Blanks(i.val)
    decreases t, 1, |order| - j
  {
    hide PrintsIntegers, ReadsIntegers, PrintElement, PrintElements, Plain, ItemOf, Spell, Firm, Within, Blanks;
    var e, rest := PrintElement(fmt, t, order[j], depth).s, PrintElements(fmt, t, order, j + 1, depth).s;
    var items, more := ItemsOf(t, order, j), ItemsOf(t, order, j + 1);
    assert items[1..] == more && items[0] == Item(ItemOf(t, order[j]), []);
    ItemIsPrinted(fmt, num, t, order[j], depth, rest + r);
    if j + 1 == |order| {
      ElementsEnd(fmt, t, order, depth);
      NothingBefore([93] + r);
    } else {
      ElementsText(fmt, t, order, j + 1, depth);
      var e1, rest1 := PrintElement(fmt, t, order[j + 1], depth).s, PrintElements(fmt, t, order, j + 2, depth).s;
      ItemsArePrinted(fmt, num, t, order, j + 1, depth, r);
      Associative([44], e1 + rest1, r);
      Associative(e1, rest1, r);
      NothingBefore([44] + (e1 + (rest1 + r)));
    }
    assert forall i :: i in items <==> i == items[0] || i in more;
  }

  lemma {:induction false} ItemIsPrinted(fmt: Formatter, num: NumberReader, t: Lua, p: nat, depth: nat, r: bytes)
    requires PrintsIntegers(fmt) && ReadsIntegers(num) && t.Table? && Plain(t) && PrintElement(fmt, t, p, depth).Text?
    ensures Spell(ItemOf(t, p), r) == PrintElement(fmt, t, p, depth).s + r
    ensures Firm(num, ItemOf(t, p)) && Within(ItemOf(t, p), 1000 - depth) && Blanks(ItemOf(t, p))
    decreases t, 0
  {
    if p < |t.sets| {
      assert t.sets[p] in t.sets;
      TreeIsPrinted(fmt, num, t.sets[p].val, depth, r);
    } else {
      WordsSpelled(r);
    }
  }

  lemma {:induction false} ObjectIsPrinted(fmt: Formatter, num: NumberReader, t: Lua, depth: nat, r: bytes)
    requires PrintsIntegers(fmt) && ReadsIntegers(num) && Plain(t) && Print(fmt, t, depth).Text?
    requires t.Table? && ArrayLength(t.sets) <= 0
    ensures Spell(TreeOf(t), r) == Print(fmt, t, depth).s + r
    ensures Firm(num, TreeOf(t)) && Within(TreeOf(t), 1000 - depth) && Blanks(TreeOf(t))
    decreases t, 2
  {
    hide PrintsIntegers, ReadsIntegers, Print, PrintMember, Plain, ArrayLength, SpellMembers, MembersOf, GoodChars;
    var members := MembersOf(t, 0);
    ObjectText(fmt, t, depth);
    TreeOfObject(t);
    if t.sets == [] {
      MembersEnd(fmt, t, depth + 1);
      NothingBefore([125] + r);
      Associative([123], [125], r);
      NothingBefore([123] + ([125] + r));
    } else {
      MembersText(fmt, t, 0, depth + 1);
      MembersArePrinted(fmt, num, t, 0, depth + 1, r);
      var m, rest := PrintMember(fmt, t, 0, depth + 1).s, PrintMembers(fmt, t, 1, depth + 1).s;
      NothingBefore(m + rest);
      Associative(m, rest, r);
      Associative([123], m + rest, r);
      NothingBefore([123] + SpellMembers(members, r));
    }
  }

  lemma TreeOfObject(t: Lua)
    requires t.Table? && ArrayLength(t.sets) <= 0
    ensures TreeOf(t) == Object([], [], MembersOf(t, 0)) && |MembersOf(t, 0)| == |t.sets|
  {
    hide MembersOf;
  }

  lemma {:induction false} MembersArePrinted(fmt: Formatter, num: NumberReader, t: Lua, i: nat, depth: nat, r: bytes)
    requires PrintsIntegers(fmt) && ReadsIntegers(num) && t.Table? && Plain(t) && i < |t.sets|
    requires PrintMember(fmt, t, i, depth).Text? && PrintMembers(fmt, t, i + 1, depth).Text?
    ensures var members := MembersOf(t, i);
      && SpellMembers(members, r) == PrintMember(fmt, t, i, depth).s + (PrintMembers(fmt, t, i + 1, depth).s + r)
      && forall m :: m in members ==> Fine(num, m, depth)
    decreases t, 1, |t.sets| - i
  {
    hide PrintsIntegers, ReadsIntegers, PrintMember, PrintMembers, Plain, SpellMember, Fine, TreeOf, KeyChars;
    var m, rest := PrintMember(fmt, t, i, depth).s, PrintMembers(fmt, t, i + 1, depth).s;
    var members, more := MembersOf(t, i), MembersOf(t, i + 1);
    assert members[1..] == more && members[0] == Entry([], KeyChars(t.sets[i].key), [], TreeOf(t.sets[i].val), []);
    MemberIsPrinted(fmt, num, t, i, depth, rest + r);
    if i + 1 == |t.sets| {
      MembersEnd(fmt, t, depth);
      NothingBefore([125] + r);
    } else {
      MembersText(fmt, t, i + 1, depth);
      var m1, rest1 := PrintMember(fmt, t, i + 1, depth).s, PrintMembers(fmt, t, i + 2, depth).s;
      MembersArePrinted(fmt, num, t, i + 1, depth, r);
      Associative([44], m1 + rest1, r);
      Associative(m1, rest1, r);
      NothingBefore([44] + (m1 + (rest1 + r)));
    }
    assert forall x :: x in members <==> x == members[0] || x in more;
  }

  ghost predicate Fine(num: NumberReader, m: Entry, depth: nat) {
    && GoodChars(m.key) && Firm(num, m.val) && Within(m.val, 1000 - depth)
    && Blank(m.w) && Blank(m.colon) && Blank(m.after) && Blanks(m.val)
  }

  lemma {:induction false} MemberIsPrinted(fmt: Formatter, num: NumberReader, t: Lua, i: nat, depth: nat, r: bytes)
    requires PrintsIntegers(fmt) && ReadsIntegers(num) && t.Table? && Plain(t) && i < |t.sets|
    requires PrintMember(fmt, t, i, depth).Text?
    ensures var m := Entry([], KeyChars(t.sets[i].key), [], TreeOf(t.sets[i].val), []);
      SpellMember(m, r) == PrintMember(fmt, t, i, depth).s + r && Fine(num, m, depth)
    decreases t, 0
  {
    hide PrintsIntegers, ReadsIntegers, Print, Spell, Firm, Within, Blanks, TreeOf, CharsOf, SpellChars, GoodChars, Quoted;
    assert t.sets[i] in t.sets;
    var key, val := t.sets[i].key, t.sets[i].val;
    MemberText(fmt, t, i, depth);
    KeyText(fmt, key);
    TreeIsPrinted(fmt, num, val, depth, r);
    var k, x := KeyImage(key).s, Print(fmt, val, depth).s;
    QuotedSpells(k, [58] + (x + r));
    Associative(Quoted(k) + [58], x, r);
    Associative(Quoted(k), [58], x + r);
    NothingBefore([58] + (x + r));
    NothingBefore([34] + SpellChars(CharsOf(k), [34] + ([58] + (x + r))));
  }

  // ---------------------------------------------------------------- no NUL

  lemma EscapeHasNoNul(e: bytes)
    requires |e| >= 2 && e[0] == 92 && e[1] == 117 && UnicodeEscape(e).Some? && UnicodeEscape(e).value.len == |e|
    ensures 0 !in e
  {
    hide CodepointToUtf8;
    HexHasNoNul(e[2..]);
    assert forall i :: 0 <= i < 6 ==> i < 2 || e[i] == e[2..][i - 2];
    if |e| == 12 {
      HexHasNoNul(e[8..]);
      assert forall i :: 8 <= i < 12 ==> e[i] == e[8..][i - 8];
    }
  }

  lemma HexHasNoNul(s: bytes)
    requires DecodeHex4(s) >= 0
    ensures s[0] != 0 && s[1] != 0 && s[2] != 0 && s[3] != 0
  {
  }

  lemma {:induction false} CharsHaveNoNul(cs: seq<Char>, r: bytes)
    requires GoodChars(cs) && 0 !in r
    ensures 0 !in SpellChars(cs, r)
  {
    hide UnicodeEscape;
    if cs != [] {
      assert cs[0] in cs && forall c :: c in cs[1..] ==> c in cs;
      CharsHaveNoNul(cs[1..], r);
      if cs[0].Unicode? {
        EscapeHasNoNul(cs[0].escape);
      }
    }
  }

  lemma {:induction false} TreeHasNoNul(num: NumberReader, d: Doc, r: bytes)
    requires Blanks(d) && Firm(num, d) && 0 !in r
    ensures 0 !in Spell(d, r)
    decreases d
  {
    hide SpellItems, SpellMembers, GoodChars;
    match d
    case String(_, cs) => CharsHaveNoNul(cs, [34] + r);
    case Array(_, _, items) =>
      if items != [] {
        ItemsHaveNoNul(num, items, r);
      }
    case Object(_, _, members) =>
      if members != [] {
        MembersHaveNoNul(num, members, r);
      }
    case _ =>
  }

  lemma {:induction false} ItemsHaveNoNul(num: NumberReader, items: seq<Item>, r: bytes)
    requires items != [] && forall i :: i in items ==> Blank(i.after) && Blanks(i.val) && Firm(num, i.val)
    requires 0 !in r
    ensures 0 !in SpellItems(items, r)
    decreases items
  {
    hide Blanks, Firm, Spell;
    var first, rest := items[0], items[1..];
    assert first in items && forall i :: i in rest ==> i in items;
    if rest != [] {
      ItemsHaveNoNul(num, rest, r);
    }
    TreeHasNoNul(num, first.val, first.after + if |items| == 1 then [93] + r else [44] + SpellItems(rest, r));
  }

  lemma {:induction false} MembersHaveNoNul(num: NumberReader, members: seq<Entry>, r: bytes)
    requires members != [] && forall m :: m in members ==>
      Blank(m.w) && Blank(m.colon) && Blank(m.after) && Blanks(m.val) && GoodChars(m.key) && Firm(num, m.val)
    requires 0 !in r
    ensures 0 !in SpellMembers(members, r)
    decreases members
  {
    hide Blanks, Firm, Spell, GoodChars, SpellChars;
    var first, rest := members[0], members[1..];
    assert first in members && forall m :: m in rest ==> m in members;
    if rest != [] {
      MembersHaveNoNul(num, rest, r);
    }
    var tail := first.after + if |members| == 1 then [125] + r else [44] + SpellMembers(rest, r);
    TreeHasNoNul(num, first.val, tail);
    CharsHaveNoNul(first.key, [34] + (first.colon + ([58] + Spell(first.val, tail))));
  }

  // ---------------------------------------------------------------- main result

  lemma {:induction false} BlankEnds(z: bytes)
    requires Blank(z)
    ensures Ended(z) && Closed(z) && 0 !in z
  {
    if z != [] {
      assert z[0] in z && forall c :: c in z[1..] ==> c in z;
      BlankEnds(z[1..]);
    }
  }

  /** A printed value decodes to the same value with any spaces, tabs and line ends before, behind and between its tokens:
      whatever tree is that of the printed text but for the whitespace. */
  lemma SpacedRoundTrip(fmt: Formatter, num: NumberReader, v: Lua, d: Doc, z: bytes)
    requires PrintsIntegers(fmt) && ReadsIntegers(num) && Plain(v) && Print(fmt, v, 0).Text?
    requires Blanks(d) && Tight(d) == TreeOf(v) && Blank(z)
    ensures Spell(Tight(d), []) == Print(fmt, v, 0).s
    ensures Decode(num, Spell(d, z)) == Success(Image(v))
  {
    hide Spell, TreeOf, Print, Good, Firm, Within, Blanks, ValueOf, Decode, Image, ParseValue, Ended, Closed, Tight;
    var text := Print(fmt, v, 0).s;
    TreeIsPrinted(fmt, num, v, 0, []);
    assert text + [] == text;
    BlankEnds([]);
    BlankEnds(z);
    TightIsSame(num, d, 1000);
    FirmIsGood(num, Tight(d), []);
    Reads(num, Tight(d), 0, []);
    ParsePrint(fmt, num, v, 0, []);
    FirmIsGood(num, d, z);
    TreeHasNoNul(num, d, z);
    ReadsWhole(num, d, z);
  }

  lemma ReadsWhole(num: NumberReader, d: Doc, z: bytes)
    requires Good(num, d, z) && Within(d, 1000) && Ended(z) && 0 !in Spell(d, z)
    ensures Decode(num, Spell(d, z)) == Success(ValueOf(d))
  {
    hide Spell, Good, Within, ValueOf, Decode, Ended;
    var s := Spell(d, z);
    assert Stands(num, s, ValueOf(d));
    AcceptedIff(num, s, ValueOf(d));
    assert |s| >= 2 ==> s[0] in s && s[1] in s;
  }
}
