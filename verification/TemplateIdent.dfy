/** The identification string of an IPFIX template: a canonical form of its set of fields. */
module TemplateIdent {

  const NO_ENO := 0x7FFF_FFFF
  const NO_FT := 0xFFFF

  datatype Field = Field(eno: nat, ft: nat)

  predicate InRange(f: Field) {
    f.eno < NO_ENO && 1 <= f.ft <= 0x7FFF
  }

  // ---------------------------------------------------------------- hexadecimal numbers

  function Digit(d: nat): char
    requires d < 16
  {
    if d < 10 then '0' + d as char else 'a' + (d - 10) as char
  }

  function DigitValue(c: char): nat {
    if '0' <= c <= '9' then c as int - '0' as int
    else if 'a' <= c <= 'f' then 10 + c as int - 'a' as int
    else 0
  }

  predicate HexDigit(c: char) {
    '0' <= c <= '9' || 'a' <= c <= 'f'
  }

  function Hex(n: nat): (s: string)
    ensures s != "" && forall i :: 0 <= i < |s| ==> HexDigit(s[i])
  {
    (if n < 16 then "" else Hex(n / 16)) + [Digit(n % 16)]
  }

  function Unhex(s: string): nat {
    if s == "" then 0 else 16 * Unhex(s[..|s| - 1]) + DigitValue(s[|s| - 1])
  }

  lemma DigitRoundTrip(d: nat)
    requires d < 16
    ensures DigitValue(Digit(d)) == d
  {
  }

  lemma {:induction false} UnhexHex(n: nat)
    ensures Unhex(Hex(n)) == n
  {
    hide Digit, DigitValue;
    DigitRoundTrip(n % 16);
    var s := Hex(n);
    assert s[|s| - 1] == Digit(n % 16);
    if n < 16 {
      assert s[..|s| - 1] == "";
    } else {
      UnhexHex(n / 16);
      assert s[..|s| - 1] == Hex(n / 16);
    }
  }

  // ---------------------------------------------------------------- joining and splitting at underscores

  predicate Word(t: string) {
    t != "" && forall i :: 0 <= i < |t| ==> t[i] != '_'
  }

  function Join(ts: seq<string>): string {
    if |ts| == 0 then "" else if |ts| == 1 then ts[0] else ts[0] + "_" + Join(ts[1..])
  }

  /** What is written before the next word. */
  function Lead(ts: seq<string>): string {
    if ts == [] then "" else Join(ts) + "_"
  }

  lemma {:induction false} JoinMore(ts: seq<string>, t: string)
    ensures Join(ts + [t]) == Lead(ts) + t
  {
    if |ts| == 1 {
      assert (ts + [t])[1..] == [t];
    } else if |ts| > 1 {
      JoinMore(ts[1..], t);
      assert (ts + [t])[1..] == ts[1..] + [t];
    }
  }

  function FirstUnderscore(s: string): (i: nat)
    ensures i <= |s|
    ensures forall j :: 0 <= j < i ==> s[j] != '_'
    ensures i < |s| ==> s[i] == '_'
  {
    if s == "" || s[0] == '_' then 0 else 1 + FirstUnderscore(s[1..])
  }

  function Split(s: string): seq<string>
    decreases |s|
  {
    if s == "" then [] else
      var i := FirstUnderscore(s);
      if i == |s| then [s] else [s[..i]] + Split(s[i + 1..])
  }

  lemma {:induction false} SplitJoin(ts: seq<string>)
    requires forall t :: t in ts ==> Word(t)
    ensures Split(Join(ts)) == ts
  {
    if |ts| > 0 {
      var s, t := Join(ts), ts[0];
      assert Word(t);
      if |ts| == 1 {
        assert FirstUnderscore(s) == |s|;
      } else {
        SplitJoin(ts[1..]);
        var rest := Join(ts[1..]);
        assert s == t + "_" + rest;
        assert s[|t|] == '_' && forall j :: 0 <= j < |t| ==> s[j] == t[j];
        assert FirstUnderscore(s) == |t|;
        assert s[..|t|] == t && s[|t| + 1..] == rest;
      }
    }
  }

  // ---------------------------------------------------------------- the words of an identification

  /** The least element number above `last` among the fields of an enterprise. */
  function NextFt(fs: seq<Field>, eno: nat, last: nat): nat {
    if fs == [] then NO_FT else
      var m, f := NextFt(fs[..|fs| - 1], eno, last), fs[|fs| - 1];
      if f.eno == eno && last < f.ft < m then f.ft else m
  }

  /** The least enterprise number above `cur`. */
  function NextEno(fs: seq<Field>, cur: nat): nat {
    if fs == [] then NO_ENO else
      var m, f := NextEno(fs[..|fs| - 1], cur), fs[|fs| - 1];
      if cur < f.eno < m then f.eno else m
  }

  lemma {:induction false} NextFtIsLeast(fs: seq<Field>, eno: nat, last: nat)
    ensures var m := NextFt(fs, eno, last);
      && m <= NO_FT
      && (m < NO_FT ==> last < m && Field(eno, m) in fs)
      && forall f :: f in fs && f.eno == eno && f.ft > last ==> m <= f.ft || f.ft >= NO_FT
  {
    if fs != [] {
      NextFtIsLeast(fs[..|fs| - 1], eno, last);
      assert forall f :: f in fs <==> f in fs[..|fs| - 1] || f == fs[|fs| - 1];
      assert fs[|fs| - 1] == Field(fs[|fs| - 1].eno, fs[|fs| - 1].ft);
    }
  }

  lemma {:induction false} NextEnoIsLeast(fs: seq<Field>, cur: nat)
    ensures var m := NextEno(fs, cur);
      && m <= NO_ENO
      && (m < NO_ENO ==> cur < m && exists f :: f in fs && f.eno == m)
      && forall f :: f in fs && f.eno > cur ==> m <= f.eno || f.eno >= NO_ENO
  {
    if fs != [] {
      NextEnoIsLeast(fs[..|fs| - 1], cur);
      assert forall f :: f in fs <==> f in fs[..|fs| - 1] || f == fs[|fs| - 1];
    }
  }

  function Group(fs: seq<Field>, eno: nat, last: nat): seq<string>
    decreases NO_FT - last
  {
    NextFtIsLeast(fs, eno, last);
    var m := NextFt(fs, eno, last);
    if m == NO_FT then [] else [Hex(m)] + Group(fs, eno, m)
  }

  function Mark(eno: nat): seq<string> {
    if eno == 0 then [] else ["v" + Hex(eno)]
  }

  /** The words from enterprise `cur` on: its mark unless it is 0, and its elements in rising order. */
  function Words(fs: seq<Field>, cur: nat): seq<string>
    decreases NO_ENO - cur
  {
    NextEnoIsLeast(fs, cur);
    var next := NextEno(fs, cur);
    Mark(cur) + Group(fs, cur, 0) + if next == NO_ENO then [] else Words(fs, next)
  }

  function Ident(fs: seq<Field>): string {
    Join(Words(fs, 0))
  }

  lemma {:induction false} GroupIsWords(fs: seq<Field>, eno: nat, last: nat)
    ensures forall t :: t in Group(fs, eno, last) ==> Word(t) && t[0] != 'v'
    decreases NO_FT - last
  {
    NextFtIsLeast(fs, eno, last);
    var m := NextFt(fs, eno, last);
    if m != NO_FT {
      GroupIsWords(fs, eno, m);
      assert HexDigit(Hex(m)[0]);
    }
  }

  lemma {:induction false} WordsAreWords(fs: seq<Field>, cur: nat)
    ensures forall t :: t in Words(fs, cur) ==> Word(t)
    decreases NO_ENO - cur
  {
    NextEnoIsLeast(fs, cur);
    GroupIsWords(fs, cur, 0);
    if NextEno(fs, cur) != NO_ENO {
      WordsAreWords(fs, NextEno(fs, cur));
    }
    if cur != 0 {
      var h := Hex(cur);
      assert forall i :: 0 <= i < |h| ==> HexDigit(h[i]);
      assert Word("v" + h);
    }
  }

  // ---------------------------------------------------------------- reading an identification back

  /** The fields that a list of words names, starting in enterprise `eno`. */
  function Named(ts: seq<string>, eno: nat): set<Field> {
    if ts == [] then {}
    else if ts[0] != "" && ts[0][0] == 'v' then Named(ts[1..], Unhex(ts[0][1..]))
    else {Field(eno, Unhex(ts[0]))} + Named(ts[1..], eno)
  }

  /** The fields of one enterprise with element numbers above `last`. */
  ghost function InGroup(fs: seq<Field>, eno: nat, last: nat): set<Field> {
    set f | f in fs && f.eno == eno && f.ft > last
  }

  /** The fields of enterprise `eno` and of those above it. */
  ghost function From(fs: seq<Field>, eno: nat): set<Field> {
    set f | f in fs && f.eno >= eno
  }

  lemma InGroupStep(fs: seq<Field>, eno: nat, last: nat)
    requires forall f :: f in fs ==> InRange(f)
    ensures var m := NextFt(fs, eno, last);
      InGroup(fs, eno, last) == if m == NO_FT then {} else {Field(eno, m)} + InGroup(fs, eno, m)
  {
    NextFtIsLeast(fs, eno, last);
  }

  lemma NamedElement(m: nat, rest: seq<string>, eno: nat)
    ensures Named([Hex(m)] + rest, eno) == {Field(eno, m)} + Named(rest, eno)
  {
    hide Hex, Unhex;
    UnhexHex(m);
    assert HexDigit(Hex(m)[0]);
    assert ([Hex(m)] + rest)[1..] == rest;
  }

  lemma NamedMark(cur: nat, before: nat, rest: seq<string>)
    requires cur == 0 ==> before == 0
    ensures Named(Mark(cur) + rest, before) == Named(rest, cur)
  {
    var ts := Mark(cur) + rest;
    if cur == 0 {
      assert ts == rest;
    } else {
      UnhexHex(cur);
      assert ts[0][1..] == Hex(cur) && ts[1..] == rest;
    }
  }

  lemma {:induction false} NamedGroup(fs: seq<Field>, eno: nat, last: nat, rest: seq<string>)
    requires forall f :: f in fs ==> InRange(f)
    ensures Named(Group(fs, eno, last) + rest, eno) == InGroup(fs, eno, last) + Named(rest, eno)
    decreases NO_FT - last
  {
    hide Named, InGroup, Hex, NextFt, Group;
    NextFtIsLeast(fs, eno, last);
    InGroupStep(fs, eno, last);
    GroupStep(fs, eno, last, rest);
    var m := NextFt(fs, eno, last);
    if m != NO_FT {
      NamedGroup(fs, eno, m, rest);
      NamedElement(m, Group(fs, eno, m) + rest, eno);
      var a, b := InGroup(fs, eno, m), Named(rest, eno);
      assert {Field(eno, m)} + (a + b) == {Field(eno, m)} + a + b;
    }
  }

  lemma GroupUnfold(fs: seq<Field>, eno: nat, last: nat)
    ensures var m := NextFt(fs, eno, last);
      m <= NO_FT && Group(fs, eno, last) == if m == NO_FT then [] else [Hex(m)] + Group(fs, eno, m)
  {
    hide Hex, NextFt;
    NextFtIsLeast(fs, eno, last);
  }

  lemma GroupStep(fs: seq<Field>, eno: nat, last: nat, rest: seq<string>)
    ensures var m := NextFt(fs, eno, last);
      Group(fs, eno, last) + rest == if m == NO_FT then rest else [Hex(m)] + (Group(fs, eno, m) + rest)
  {
    hide Hex, NextFt, Group;
    GroupUnfold(fs, eno, last);
  }

  lemma FromStep(fs: seq<Field>, cur: nat)
    requires forall f :: f in fs ==> InRange(f)
    ensures var next := NextEno(fs, cur);
      From(fs, cur) == InGroup(fs, cur, 0) + if next == NO_ENO then {} else From(fs, next)
  {
    NextEnoIsLeast(fs, cur);
  }

  lemma {:induction false} NamedWords(fs: seq<Field>, cur: nat, before: nat)
    requires forall f :: f in fs ==> InRange(f)
    requires cur == 0 ==> before == 0
    ensures Named(Words(fs, cur), before) == From(fs, cur)
    decreases NO_ENO - cur
  {
    hide Named, InGroup, From, Hex, NextEno, Group, Mark, InRange;
    NextEnoIsLeast(fs, cur);
    FromStep(fs, cur);
    var next := NextEno(fs, cur);
    var g, rest := Group(fs, cur, 0), if next == NO_ENO then [] else Words(fs, next);
    assert Words(fs, cur) == Mark(cur) + (g + rest);
    NamedMark(cur, before, g + rest);
    NamedGroup(fs, cur, 0, rest);
    NamedNothing(cur);
    if next != NO_ENO {
      NamedWords(fs, next, cur);
    }
  }

  lemma NamedNothing(eno: nat)
    ensures Named([], eno) == {}
  {
  }

  /** The string names exactly the fields of the template. */
  lemma IdentNamesFields(fs: seq<Field>)
    requires forall f :: f in fs ==> InRange(f)
    ensures Named(Split(Ident(fs)), 0) == set f | f in fs
  {
    WordsAreWords(fs, 0);
    SplitJoin(Words(fs, 0));
    NamedWords(fs, 0, 0);
    assert From(fs, 0) == set f | f in fs;
  }

  // ---------------------------------------------------------------- only the set matters

  ghost predicate SameSet(fs: seq<Field>, gs: seq<Field>) {
    forall f :: f in fs <==> f in gs
  }

  lemma {:induction false} SameGroup(fs: seq<Field>, gs: seq<Field>, eno: nat, last: nat)
    requires SameSet(fs, gs) && forall f :: f in fs ==> InRange(f)
    ensures Group(fs, eno, last) == Group(gs, eno, last)
    decreases NO_FT - last
  {
    NextFtIsLeast(fs, eno, last);
    NextFtIsLeast(gs, eno, last);
    var m := NextFt(fs, eno, last);
    assert m == NextFt(gs, eno, last);
    if m != NO_FT {
      SameGroup(fs, gs, eno, m);
    }
  }

  lemma {:induction false} SameWords(fs: seq<Field>, gs: seq<Field>, cur: nat)
    requires SameSet(fs, gs) && forall f :: f in fs ==> InRange(f)
    ensures Words(fs, cur) == Words(gs, cur)
    decreases NO_ENO - cur
  {
    SameGroup(fs, gs, cur, 0);
    NextEnoIsLeast(fs, cur);
    NextEnoIsLeast(gs, cur);
    var next := NextEno(fs, cur);
    assert next == NextEno(gs, cur);
    if next != NO_ENO {
      SameWords(fs, gs, next);
    }
  }

  /** Two templates get the same string exactly when they have the same set of fields, whatever their order
      and repetitions. */
  lemma IdentIsCanonical(fs: seq<Field>, gs: seq<Field>)
    requires forall f :: f in fs ==> InRange(f)
    requires forall f :: f in gs ==> InRange(f)
    ensures Ident(fs) == Ident(gs) <==> (set f | f in fs) == (set f | f in gs)
  {
    IdentNamesFields(fs);
    IdentNamesFields(gs);
    var s, t := set f | f in fs, set f | f in gs;
    if s == t {
      assert forall f :: (f in fs <==> f in s) && (f in gs <==> f in t);
      SameWords(fs, gs, 0);
    }
  }

  // ---------------------------------------------------------------- in characters

  /** Numbers are written in small hexadecimal digits. */
  lemma DigitIs(d: nat)
    requires d < 16
    ensures Digit(d) == "0123456789abcdef"[d]
  {
  }

  /** By enterprise, then by element. */
  predicate Ascending(gs: seq<Field>) {
    forall i, j :: 0 <= i < j < |gs| ==> gs[i].eno < gs[j].eno || (gs[i].eno == gs[j].eno && gs[i].ft < gs[j].ft)
  }

  /** Each element's number, with a v and the enterprise's number before the first element of each enterprise but `eno`. */
  function Spelled(gs: seq<Field>, eno: nat): seq<string> {
    if gs == [] then [] else
      (if gs[0].eno == eno then [] else ["v" + Hex(gs[0].eno)]) + [Hex(gs[0].ft)] + Spelled(gs[1..], gs[0].eno)
  }

  /** The words behind those of an enterprise. */
  function Later(fs: seq<Field>, eno: nat): seq<string> {
    if NextEno(fs, eno) == NO_ENO then [] else Words(fs, NextEno(fs, eno))
  }

  /** `gs` has the fields of an enterprise above `last`, and those of the enterprises behind it. */
  ghost predicate Remaining(fs: seq<Field>, gs: seq<Field>, eno: nat, last: nat) {
    forall f :: f in gs <==> f in fs && ((f.eno == eno && f.ft > last) || f.eno > eno)
  }

  lemma LaterUnfold(fs: seq<Field>, cur: nat)
    ensures Words(fs, cur) == Mark(cur) + (Group(fs, cur, 0) + Later(fs, cur))
  {
    hide Mark, Group;
    NextEnoIsLeast(fs, cur);
  }

  lemma FirstIsLeast(gs: seq<Field>)
    requires Ascending(gs) && gs != []
    ensures Ascending(gs[1..]) && gs[0] in gs && gs[0] !in gs[1..]
    ensures forall f :: f in gs <==> f == gs[0] || f in gs[1..]
    ensures forall f :: f in gs[1..] ==> gs[0].eno < f.eno || (gs[0].eno == f.eno && gs[0].ft < f.ft)
  {
    assert gs == [gs[0]] + gs[1..];
  }

  /** The first of the remaining fields is the next one. */
  lemma FirstIsNext(fs: seq<Field>, gs: seq<Field>, eno: nat, last: nat)
    requires (forall f :: f in fs ==> InRange(f)) && Ascending(gs) && Remaining(fs, gs, eno, last)
    ensures gs == [] ==> NextFt(fs, eno, last) == NO_FT && NextEno(fs, eno) == NO_ENO
    ensures gs != [] && gs[0].eno == eno ==>
      NextFt(fs, eno, last) == gs[0].ft != NO_FT && Ascending(gs[1..]) && Remaining(fs, gs[1..], eno, gs[0].ft)
    ensures gs != [] && gs[0].eno != eno ==>
      NextFt(fs, eno, last) == NO_FT && eno < NextEno(fs, eno) == gs[0].eno < NO_ENO && Remaining(fs, gs, gs[0].eno, 0)
  {
    hide NextFt, NextEno, Ascending;
    NextFtIsLeast(fs, eno, last);
    NextEnoIsLeast(fs, eno);
    if gs != [] {
      FirstIsLeast(gs);
    }
  }

  lemma {:induction false} RemainingSpelled(fs: seq<Field>, gs: seq<Field>, eno: nat, last: nat)
    requires (forall f :: f in fs ==> InRange(f)) && Ascending(gs) && Remaining(fs, gs, eno, last)
    ensures Group(fs, eno, last) + Later(fs, eno) == Spelled(gs, eno)
    decreases |gs|, NO_ENO - eno
  {
    hide NextFt, NextEno, Hex, Group, Words, Remaining, Ascending;
    FirstIsNext(fs, gs, eno, last);
    GroupUnfold(fs, eno, last);
    if gs != [] {
      if gs[0].eno == eno {
        RemainingSpelled(fs, gs[1..], eno, gs[0].ft);
      } else {
        RemainingSpelled(fs, gs, gs[0].eno, 0);
        LaterUnfold(fs, gs[0].eno);
      }
    }
  }

  /** The string is that of the template's fields in ascending order, without repetitions. */
  lemma IdentIsSorted(fs: seq<Field>, gs: seq<Field>)
    requires (forall f :: f in fs ==> InRange(f)) && Ascending(gs) && SameSet(fs, gs)
    ensures Ident(fs) == Join(Spelled(gs, 0))
  {
    hide Group, Later, Words, Spelled, Join, Ascending;
    RemainingSpelled(fs, gs, 0, 0);
    LaterUnfold(fs, 0);
    assert Mark(0) + Spelled(gs, 0) == Spelled(gs, 0);
  }
}
