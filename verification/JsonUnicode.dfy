/** The unicode escapes of lua-cjson.c: \uXXXX units, alone or as a surrogate pair, turned into UTF-8. Shifts and
    masks work on disjoint bits there, so they are written as divisions, remainders and sums. */
module JsonUnicode {
  import opened Bytes
  import opened Options

  /** Both letter cases, by setting the bit that makes a letter small. */
  function HexDigitToInt(hex: byte): (d: int)
    ensures d == if 48 <= hex <= 57 then hex - 48
                 else if 65 <= hex <= 70 then hex - 55 else if 97 <= hex <= 102 then hex - 87 else -1
  {
    if 48 <= hex <= 57 then hex - 48 else
      var lower := if hex / 32 % 2 == 0 then hex as int + 32 else hex;
      if 97 <= lower <= 102 then 10 + lower - 97 else -1
  }

  /** The number that four hex digits stand for; -1 when the text ends or a character is not a digit. */
  function DecodeHex4(s: bytes): (n: int)
    ensures -1 <= n < 0x1_0000
    ensures n >= 0 ==> |s| >= 4
  {
    if |s| < 4 then -1 else
      var a, b, c, d := HexDigitToInt(s[0]), HexDigitToInt(s[1]), HexDigitToInt(s[2]), HexDigitToInt(s[3]);
      if a < 0 || b < 0 || c < 0 || d < 0 then -1 else a * 0x1000 + b * 0x100 + c * 0x10 + d
  }

  function CodepointToUtf8(cp: nat): (s: bytes)
    requires cp <= 0x1f_ffff
    ensures 1 <= |s| <= 4
  {
    if cp <= 0x7f then [cp]
    else if cp <= 0x7ff then [cp / 0x40 + 0xc0, cp % 0x40 + 0x80]
    else if cp <= 0xffff then [cp / 0x1000 + 0xe0, cp / 0x40 % 0x40 + 0x80, cp % 0x40 + 0x80]
    else [cp / 0x4_0000 + 0xf0, cp / 0x1000 % 0x40 + 0x80, cp / 0x40 % 0x40 + 0x80, cp % 0x40 + 0x80]
  }

  /** An accepted escape: its UTF-8 bytes, and how many characters it takes. */
  datatype Escape = Escape(utf8: bytes, len: nat)

  /** The escape that starts at the backslash `s[0]`, with `s[1]` the letter u. */
  function UnicodeEscape(s: bytes): (e: Option<Escape>)
    requires |s| >= 2
    ensures e.Some? ==> 0 < |e.value.utf8| < e.value.len <= |s|
  {
    var unit := DecodeHex4(s[2..]);
    if unit < 0 then None
    else if unit / 0x800 == 0x1b then
      if unit / 0x400 % 2 == 1 then None
      else if |s| < 8 || s[6] != 92 || s[7] != 117 then None
      else
        var low := DecodeHex4(s[8..]);
        if low < 0 || low / 0x400 != 0x37 then None
        else Some(Escape(CodepointToUtf8(unit % 0x400 * 0x400 + low % 0x400 + 0x1_0000), 12))
    else Some(Escape(CodepointToUtf8(unit), 6))
  }

  // ---------------------------------------------------------------- the standards

  /** A Unicode scalar value. */
  predicate IsScalar(cp: int) {
    0 <= cp <= 0x10_ffff && !(0xd800 <= cp <= 0xdfff)
  }

  /** UTF-16 as in section 2.1 of RFC 2781. */
  function Utf16(cp: nat): seq<int>
    requires IsScalar(cp)
  {
    if cp < 0x1_0000 then [cp] else
      var u := cp - 0x1_0000;
      [0xd800 + u / 0x400, 0xdc00 + u % 0x400]
  }

  predicate Continuation(b: byte) {
    0x80 <= b <= 0xbf
  }

  /** The code point at the start of `s` and its length, by the grammar of section 4 of RFC 3629; None when the
      bytes are not well formed, which includes longer than needed and encoded surrogates. */
  function Utf8(s: bytes): Option<(int, nat)> {
    if |s| == 0 then None
    else if s[0] <= 0x7f then Some((s[0], 1))
    else if 0xc2 <= s[0] <= 0xdf then
      if |s| >= 2 && Continuation(s[1]) then Some((Two(s[0] - 0xc0, s[1]), 2)) else None
    else if 0xe0 <= s[0] <= 0xef then
      if |s| >= 3 && Continuation(s[1]) && Continuation(s[2])
         && (s[0] == 0xe0 ==> s[1] >= 0xa0) && (s[0] == 0xed ==> s[1] <= 0x9f)
      then Some((Three(s[0] - 0xe0, s[1], s[2]), 3)) else None
    else if 0xf0 <= s[0] <= 0xf4 then
      if |s| >= 4 && Continuation(s[1]) && Continuation(s[2]) && Continuation(s[3])
         && (s[0] == 0xf0 ==> s[1] >= 0x90) && (s[0] == 0xf4 ==> s[1] <= 0x8f)
      then Some((Four(s[0] - 0xf0, s[1], s[2], s[3]), 4)) else None
    else None
  }

  function Two(a: int, b: int): int {
    a * 0x40 + (b - 0x80)
  }

  function Three(a: int, b: int, c: int): int {
    a * 0x1000 + (b - 0x80) * 0x40 + (c - 0x80)
  }

  function Four(a: int, b: int, c: int, d: int): int {
    a * 0x4_0000 + (b - 0x80) * 0x1000 + (c - 0x80) * 0x40 + (d - 0x80)
  }

  /** A number is the sum of its groups of six bits. */
  lemma SixBitGroups(cp: nat)
    ensures cp / 0x40 * 0x40 + cp % 0x40 == cp
    ensures cp / 0x1000 * 0x40 + cp / 0x40 % 0x40 == cp / 0x40
    ensures cp / 0x4_0000 * 0x40 + cp / 0x1000 % 0x40 == cp / 0x1000
  {
    assert cp / 0x40 / 0x40 == cp / 0x1000;
    assert cp / 0x1000 / 0x40 == cp / 0x4_0000;
  }

  lemma GroupsAre(n: int, a: int, b: int)
    requires n == a * 0x40 + b && 0 <= b < 0x40
    ensures n / 0x40 == a && n % 0x40 == b
  {
  }

  /** The written bytes are well-formed UTF-8 of the code point, whatever follows. */
  lemma Utf8ReadsBack(cp: nat, r: bytes)
    requires IsScalar(cp)
    ensures Utf8(CodepointToUtf8(cp) + r) == Some((cp, |CodepointToUtf8(cp)|))
  {
    var s := CodepointToUtf8(cp);
    assert forall i :: 0 <= i < |s| ==> (s + r)[i] == s[i];
    SixBitGroups(cp);
  }

  lemma TwoIsUnique(a: int, b: int)
    requires 2 <= a < 0x20 && 0x80 <= b < 0xc0
    ensures var cp := Two(a, b); IsScalar(cp) && CodepointToUtf8(cp) == [a + 0xc0, b]
  {
    GroupsAre(Two(a, b), a, b - 0x80);
  }

  lemma ThreeIsUnique(a: int, b: int, c: int)
    requires 0 <= a < 0x10 && 0x80 <= b < 0xc0 && 0x80 <= c < 0xc0
    requires (a == 0 ==> b >= 0xa0) && (a == 0xd ==> b <= 0x9f)
    ensures var cp := Three(a, b, c); IsScalar(cp) && CodepointToUtf8(cp) == [a + 0xe0, b, c]
  {
    var cp, ab := Three(a, b, c), a * 0x40 + (b - 0x80);
    GroupsAre(cp, ab, c - 0x80);
    GroupsAre(ab, a, b - 0x80);
    SixBitGroups(cp);
  }

  lemma FourIsUnique(a: int, b: int, c: int, d: int)
    requires 0 <= a <= 4 && 0x80 <= b < 0xc0 && 0x80 <= c < 0xc0 && 0x80 <= d < 0xc0
    requires (a == 0 ==> b >= 0x90) && (a == 4 ==> b <= 0x8f)
    ensures var cp := Four(a, b, c, d); IsScalar(cp) && CodepointToUtf8(cp) == [a + 0xf0, b, c, d]
  {
    var cp, ab := Four(a, b, c, d), a * 0x40 + (b - 0x80);
    var abc := ab * 0x40 + (c - 0x80);
    GroupsAre(cp, abc, d - 0x80);
    GroupsAre(abc, ab, c - 0x80);
    GroupsAre(ab, a, b - 0x80);
    SixBitGroups(cp);
  }

  lemma OneIsUnique(a: byte)
    requires a <= 0x7f
    ensures IsScalar(a) && CodepointToUtf8(a) == [a]
  {
  }

  /** No other bytes are well-formed UTF-8 of it. */
  lemma Utf8IsUnique(s: bytes)
    requires Utf8(s).Some?
    ensures var (cp, n) := Utf8(s).value;
      n <= |s| && IsScalar(cp) && s[..n] == CodepointToUtf8(cp)
  {
    hide Two, Three, Four, CodepointToUtf8, IsScalar;
    var (cp, n) := Utf8(s).value;
    if n == 1 {
      OneIsUnique(s[0]);
    } else if n == 2 {
      TwoIsUnique(s[0] as int - 0xc0, s[1]);
    } else if n == 3 {
      ThreeIsUnique(s[0] as int - 0xe0, s[1], s[2]);
    } else {
      FourIsUnique(s[0] as int - 0xf0, s[1], s[2], s[3]);
    }
  }

  /** Two units are a surrogate pair, high then low, exactly when they are the UTF-16 form of the value computed
      from their low ten bits. */
  lemma SurrogatePair(u: nat, v: nat)
    requires u < 0x1_0000 && v < 0x1_0000
    requires u / 0x800 == 0x1b && u / 0x400 % 2 == 0 && v / 0x400 == 0x37
    ensures var cp := u % 0x400 * 0x400 + v % 0x400 + 0x1_0000;
      IsScalar(cp) && cp <= 0x1f_ffff && Utf16(cp) == [u, v]
  {
    assert u / 0x400 == 0x36;
    assert u == 0xd800 + u % 0x400 && v == 0xdc00 + v % 0x400;
  }

  lemma PairOf(cp: nat)
    requires IsScalar(cp) && cp >= 0x1_0000
    ensures var u, v := Utf16(cp)[0], Utf16(cp)[1];
      && 0 <= u < 0x1_0000 && 0 <= v < 0x1_0000 && u / 0x800 == 0x1b && u / 0x400 % 2 == 0 && v / 0x400 == 0x37
      && u % 0x400 * 0x400 + v % 0x400 + 0x1_0000 == cp
  {
    var w := cp - 0x1_0000;
    assert 0 <= w / 0x400 < 0x400;
  }

  /** The code units that the text writes as one or two escapes at its start; None where it does not. */
  function UnitAt(s: bytes, i: nat): (u: Option<int>)
    ensures u.Some? ==> i + 6 <= |s| && 0 <= u.value < 0x1_0000
  {
    if |s| < i + 6 || s[i] != 92 || s[i + 1] != 117 || DecodeHex4(s[i + 2..]) < 0 then None
    else Some(DecodeHex4(s[i + 2..]))
  }

  /** The text starts with escapes of exactly these units. */
  ghost predicate Writes(s: bytes, units: seq<int>) {
    forall k :: 0 <= k < |units| ==> UnitAt(s, 6 * k) == Some(units[k])
  }

  lemma OneUnit(s: bytes, u: int)
    requires UnitAt(s, 0) == Some(u)
    ensures Writes(s, [u])
  {
  }

  lemma TwoUnits(s: bytes, u: int, v: int)
    requires UnitAt(s, 0) == Some(u) && UnitAt(s, 6) == Some(v)
    ensures Writes(s, [u, v])
  {
  }

  /** Which single units are scalar values. */
  lemma ScalarUnits()
    ensures forall u: nat :: u < 0x1_0000 && u / 0x800 != 0x1b ==> IsScalar(u) && Utf16(u) == [u]
  {
  }

  /** What is accepted is the UTF-16 form of a scalar value, and what is appended is the UTF-8 of that value. */
  lemma EscapeIsUtf16(s: bytes) returns (cp: nat)
    requires |s| >= 2 && s[0] == 92 && s[1] == 117 && UnicodeEscape(s).Some?
    ensures IsScalar(cp) && Writes(s, Utf16(cp))
    ensures UnicodeEscape(s).value == Escape(CodepointToUtf8(cp), 6 * |Utf16(cp)|)
    ensures Utf8(UnicodeEscape(s).value.utf8) == Some((cp, |UnicodeEscape(s).value.utf8|))
  {
    hide DecodeHex4, HexDigitToInt, Utf16, Utf8, CodepointToUtf8, IsScalar;
    var u := DecodeHex4(s[2..]);
    ScalarUnits();
    if u / 0x800 == 0x1b {
      var v := DecodeHex4(s[8..]);
      SurrogatePair(u, v);
      cp := u % 0x400 * 0x400 + v % 0x400 + 0x1_0000;
      TwoUnits(s, u, v);
    } else {
      cp := u;
      OneUnit(s, u);
    }
    Utf8ReadsBack(cp, []);
    assert CodepointToUtf8(cp) + [] == CodepointToUtf8(cp);
  }

  /** Every scalar value written as its UTF-16 units is accepted. */
  lemma Utf16IsAccepted(s: bytes, cp: nat)
    requires IsScalar(cp) && |s| >= 2 && Writes(s, Utf16(cp))
    ensures UnicodeEscape(s) == Some(Escape(CodepointToUtf8(cp), 6 * |Utf16(cp)|))
  {
    hide DecodeHex4, HexDigitToInt, CodepointToUtf8;
    assert UnitAt(s, 6 * 0) == Some(Utf16(cp)[0]);
    if cp >= 0x1_0000 {
      PairOf(cp);
      assert UnitAt(s, 6 * 1) == Some(Utf16(cp)[1]);
    }
  }
}
