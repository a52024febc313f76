/** What JSON printing refuses and escapes, by numbers. */
module JsonLimits {
  import opened Bytes
  import opened LuaValues
  import opened LuaTables
  import opened JsonString
  import opened JsonPrinter
  import opened MsgPackFormats

  // ---------------------------------------------------------------- strings

  /** What each byte of a string is printed as: a letter behind a backslash, a unicode escape for the other control
      characters, or the byte itself. */
  lemma EscapeTable(c: byte)
    ensures EscapeOf(c) ==
      if c == 34 then [92, 34] else if c == 92 then [92, 92] else if c == 47 then [92, 47]
      else if c == 8 then [92, 98] else if c == 9 then [92, 116] else if c == 10 then [92, 110]
      else if c == 12 then [92, 102] else if c == 13 then [92, 114]
      else if c < 10 then [92, 117, 48, 48, 48, 48 + c]
      else if c == 11 then [92, 117, 48, 48, 48, 98]
      else if c == 14 || c == 15 then [92, 117, 48, 48, 48, 87 + c]
      else if c < 26 then [92, 117, 48, 48, 49, 32 + c]
      else if c < 32 then [92, 117, 48, 48, 49, 71 + c]
      else if c == 127 then [92, 117, 48, 48, 55, 102]
      else [c]
  {
  }

  lemma {:induction false} EscapedHasNoControl(s: bytes)
    ensures forall c :: c in Escaped(s) ==> c >= 32 && c != 127
  {
    if s != [] {
      EscapedHasNoControl(s[..|s| - 1]);
      EscapeTable(s[|s| - 1]);
    }
  }

  /** A printed string stands between quotes and has no control character in it. */
  lemma QuotedHasNoControl(s: bytes)
    ensures var q := Quoted(s);
      |q| >= 2 && q[0] == 34 && q[|q| - 1] == 34 && forall c :: c in q ==> c >= 32 && c != 127
  {
    EscapedHasNoControl(s);
  }

  // ---------------------------------------------------------------- tables

  /** A table of positive integer keys that a C int holds is refused as too sparse exactly when it has a key above 10 that
      is more than twice the number of its entries. */
  lemma SparseIff(sets: seq<Assign>)
    ensures ExcessivelySparse(sets) <==>
      && (forall e :: e in sets ==> e.key.Int? && 1 <= e.key.n <= 0x7fff_ffff)
      && exists e :: e in sets && e.key.n > 10 && e.key.n > 2 * |sets|
  {
    if IndexKeys(sets) {
      MaxKeyIsLargest(sets);
    }
  }

  /** A table is refused for its depth exactly from the thousandth on, and then for being sparse. */
  lemma TablesRefused(fmt: Formatter, t: Lua, depth: nat)
    requires t.Table?
    ensures depth >= 1000 ==> Print(fmt, t, depth) == Refused(TooDeep)
    ensures depth < 1000 && ExcessivelySparse(t.sets) ==> Print(fmt, t, depth) == Refused(TooSparse)
  {
  }

  /** An empty table is an object. */
  lemma EmptyTableIsAnObject(fmt: Formatter, depth: nat)
    requires depth < 1000
    ensures Print(fmt, Table([]), depth) == Text([123, 125])
  {
    assert [123] + [125] == [123, 125];
  }

  // ---------------------------------------------------------------- numbers

  /** Numbers are refused exactly when their exponent bits are all set: without the sign, the bits are those of infinity
      or above. */
  lemma NotFiniteIff(fmt: Formatter, w: bytes, depth: nat)
    ensures |w| == 4 ==> (Print(fmt, Double(w), depth) == Refused(NotFinite) <==>
      Unsigned(w) % 0x8000_0000 >= 0x7f80_0000)
    ensures |w| == 8 ==> (Print(fmt, Double(w), depth) == Refused(NotFinite) <==>
      Unsigned(w) % 0x8000_0000_0000_0000 >= 0x7ff0_0000_0000_0000)
  {
    hide Unsigned;
    if |w| == 4 {
      UnsignedTwo(w);
      Powers();
      var low := Unsigned(w[1..]);
      assert Unsigned(w) == w[0] as int * 0x100_0000 + low && 0 <= low < 0x100_0000;
      SignOff4(w[0], low);
    } else if |w| == 8 {
      UnsignedTwo(w);
      Powers();
      var low := Unsigned(w[1..]);
      assert Unsigned(w) == w[0] as int * 0x100_0000_0000_0000 + low && 0 <= low < 0x100_0000_0000_0000;
      SignOff8(w[0], low);
    }
  }

  // ---------------------------------------------------------------- keys

  /** Only text and numbers can be keys of an object. */
  lemma KeyRefusedIff(fmt: Formatter, k: Lua)
    ensures PrintKey(fmt, k) == Refused(BadKey) <==> !k.Str? && !k.Int? && !k.Double?
  {
  }
}
