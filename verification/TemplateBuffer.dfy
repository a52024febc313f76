/** The buffer that the identification of a template is written to, what comes out of it, and the loops that write. */
module TemplateBuffer {
  import opened TemplateIdent

  // ---------------------------------------------------------------- the buffer

  /** A bounded write, of as much as there is room for, or an underscore appended without a look at the room. */
  datatype Write = Put(text: string) | Bar

  /** What the buffer holds, or that it has been written past. */
  datatype Buffer = Text(s: string) | Overrun

  /** `len` characters and the closing NUL fit in the buffer. A bounded write keeps one character less, because it
      counts the NUL. */
  function Written(b: Buffer, w: Write, len: nat): Buffer {
    match b
    case Overrun => Overrun
    case Text(s) =>
      match w
      case Put(t) => Text(if |s| + |t| < len then s + t else if |s| < len then s + t[..len - |s| - 1] else s)
      case Bar => if |s| < len then Text(s + "_") else Overrun
  }

  function WriteAll(b: Buffer, ws: seq<Write>, len: nat): Buffer
    decreases |ws|
  {
    if ws == [] then b else WriteAll(Written(b, ws[0], len), ws[1..], len)
  }

  lemma {:induction false} WriteBoth(b: Buffer, ws: seq<Write>, us: seq<Write>, len: nat)
    ensures WriteAll(b, ws + us, len) == WriteAll(WriteAll(b, ws, len), us, len)
    decreases |ws|
  {
    if ws == [] {
      assert ws + us == us;
    } else {
      assert (ws + us)[1..] == ws[1..] + us;
      WriteBoth(Written(b, ws[0], len), ws[1..], us, len);
    }
  }

  function Flat(ws: seq<Write>): string {
    if ws == [] then "" else (if ws[0].Put? then ws[0].text else "_") + Flat(ws[1..])
  }

  lemma {:induction false} FlatBoth(ws: seq<Write>, us: seq<Write>)
    ensures Flat(ws + us) == Flat(ws) + Flat(us)
  {
    if ws == [] {
      assert ws + us == us;
    } else {
      assert (ws + us)[1..] == ws[1..] + us;
      FlatBoth(ws[1..], us);
    }
  }

  /** What fits is written as it is. */
  lemma {:induction false} WrittenWhole(s: string, ws: seq<Write>, len: nat)
    requires |s| + |Flat(ws)| < len
    ensures WriteAll(Text(s), ws, len) == Text(s + Flat(ws))
    decreases |ws|
  {
    if ws != [] {
      var t := if ws[0].Put? then ws[0].text else "_";
      assert s + (t + Flat(ws[1..])) == s + t + Flat(ws[1..]);
      WrittenWhole(s + t, ws[1..], len);
    }
  }

  /** How many underscores are appended where, uncut, no room for one more would be left behind them. The first write
      stands at position `k`. */
  function Late(ws: seq<Write>, k: nat, len: nat): nat
    decreases |ws|
  {
    if ws == [] then 0
    else if ws[0].Put? then Late(ws[1..], k + |ws[0].text|, len)
    else (if k + 1 >= len then 1 else 0) + Late(ws[1..], k + 1, len)
  }

  lemma {:induction false} LateBoth(ws: seq<Write>, us: seq<Write>, k: nat, len: nat)
    ensures Late(ws + us, k, len) == Late(ws, k, len) + Late(us, k + |Flat(ws)|, len)
    decreases |ws|
  {
    if ws == [] {
      assert ws + us == us;
    } else {
      assert (ws + us)[1..] == ws[1..] + us;
      LateBoth(ws[1..], us, k + if ws[0].Put? then |ws[0].text| else 1, len);
    }
  }

  /** There are none where all fits. */
  lemma {:induction false} NoneLate(ws: seq<Write>, k: nat, len: nat)
    requires k + |Flat(ws)| < len
    ensures Late(ws, k, len) == 0
    decreases |ws|
  {
    if ws != [] {
      NoneLate(ws[1..], k + if ws[0].Put? then |ws[0].text| else 1, len);
    }
  }

  lemma {:induction false} OverrunStays(ws: seq<Write>, len: nat)
    ensures WriteAll(Overrun, ws, len) == Overrun
    decreases |ws|
  {
    if ws != [] {
      OverrunStays(ws[1..], len);
    }
  }

  /** A cut text, with the underscores appended behind it: the second one is past the buffer. */
  function CutWith(s: string, bars: nat): Buffer {
    if bars == 0 then Text(s) else if bars == 1 then Text(s + "_") else Overrun
  }

  /** In a full buffer every underscore is late. */
  lemma {:induction false} WrittenFull(s: string, bars: nat, ws: seq<Write>, k: nat, len: nat)
    requires |s| + 1 == len <= k + 1 && bars <= 1
    ensures WriteAll(CutWith(s, bars), ws, len) == CutWith(s, bars + Late(ws, k, len))
    decreases |ws|
  {
    if ws != [] {
      if ws[0].Put? {
        assert s + ws[0].text[..0] == s && (ws[0].text == "" ==> s + ws[0].text == s);
        WrittenFull(s, bars, ws[1..], k + |ws[0].text|, len);
      } else if bars == 0 {
        WrittenFull(s, 1, ws[1..], k + 1, len);
      } else {
        OverrunStays(ws[1..], len);
      }
    }
  }

  /** What does not fit is cut to one character less than the room. No underscore follows, or one, or the buffer is
      overrun, as none of the underscores was late, or one, or more. */
  lemma {:induction false} WrittenCut(s: string, ws: seq<Write>, len: nat)
    requires |s| < len <= |s| + |Flat(ws)|
    ensures WriteAll(Text(s), ws, len) == CutWith((s + Flat(ws))[..len - 1], Late(ws, |s|, len))
    decreases |ws|
  {
    hide CutWith, WriteAll, Late, Flat, Written;
    FirstWrite(s, ws, len);
    var t, rest := if ws[0].Put? then ws[0].text else "_", ws[1..];
    if |s| + |t| < len {
      WrittenFits(s, ws[0], len);
      PutTogether(s, t, Flat(rest));
      WrittenCut(s + t, rest, len);
    } else {
      Prefix(s, t, Flat(rest), len - 1);
      FirstCut(s, ws[0], len);
      WrittenFull(s + t[..len - 1 - |s|], if ws[0].Put? then 0 else 1, rest, |s| + |t|, len);
    }
  }

  lemma PutTogether(s: string, t: string, u: string)
    ensures s + (t + u) == s + t + u
  {
  }

  lemma Prefix(s: string, t: string, u: string, n: nat)
    requires |s| <= n <= |s| + |t|
    ensures (s + (t + u))[..n] == s + t[..n - |s|]
  {
  }

  lemma WrittenFits(s: string, w: Write, len: nat)
    requires var t := if w.Put? then w.text else "_"; |s| + |t| < len
    ensures var t := if w.Put? then w.text else "_"; Written(Text(s), w, len) == Text(s + t)
  {
  }

  /** The first write that does not fit. */
  lemma FirstCut(s: string, w: Write, len: nat)
    requires var t := if w.Put? then w.text else "_"; |s| < len <= |s| + |t|
    ensures var t := if w.Put? then w.text else "_";
      Written(Text(s), w, len) == CutWith(s + t[..len - 1 - |s|], if w.Put? then 0 else 1)
  {
    if w.Bar? {
      assert s + "_"[..0] == s;
    }
  }

  lemma FirstWrite(s: string, ws: seq<Write>, len: nat)
    requires |s| < len <= |s| + |Flat(ws)|
    ensures ws != [] && WriteAll(Text(s), ws, len) == WriteAll(Written(Text(s), ws[0], len), ws[1..], len)
    ensures var t := if ws[0].Put? then ws[0].text else "_";
      && Flat(ws) == t + Flat(ws[1..])
      && Late(ws, |s|, len) == (if ws[0].Bar? && |s| + 1 >= len then 1 else 0) + Late(ws[1..], |s| + |t|, len)
  {
    hide Written;
    assert ws == [] ==> Flat(ws) == "";
  }

  // ---------------------------------------------------------------- the writes

  function GroupWrites(fs: seq<Field>, eno: nat, last: nat, first: bool): seq<Write>
    decreases NO_FT - last
  {
    NextFtIsLeast(fs, eno, last);
    var m := NextFt(fs, eno, last);
    if m == NO_FT then [] else (if first then [] else [Bar]) + [Put(Hex(m))] + GroupWrites(fs, eno, m, false)
  }

  function MarkWrites(eno: nat): seq<Write> {
    if eno == 0 then [] else [Put("v" + Hex(eno) + "_")]
  }

  /** The writes from enterprise `cur` on: its mark is one write, with its underscore. */
  function Writes(fs: seq<Field>, cur: nat): seq<Write>
    decreases NO_ENO - cur
  {
    NextEnoIsLeast(fs, cur);
    var next := NextEno(fs, cur);
    MarkWrites(cur) + GroupWrites(fs, cur, 0, true)
    + if next == NO_ENO then [] else (if Group(fs, cur, 0) == [] then [] else [Bar]) + Writes(fs, next)
  }

  /** What becomes of them in a buffer of ten characters a field. */
  function Result(fs: seq<Field>): Buffer {
    WriteAll(Text(""), Writes(fs, 0), 10 * |fs|)
  }

  predicate Fits(fs: seq<Field>) {
    fs == [] || |Ident(fs)| < 10 * |fs|
  }

  lemma GroupWritesUnfold(fs: seq<Field>, eno: nat, last: nat, first: bool)
    ensures var m := NextFt(fs, eno, last);
      m <= NO_FT && GroupWrites(fs, eno, last, first) ==
        if m == NO_FT then [] else (if first then [] else [Bar]) + [Put(Hex(m))] + GroupWrites(fs, eno, m, false)
  {
    hide Hex, NextFt;
    NextFtIsLeast(fs, eno, last);
  }

  lemma WriteFront(b: Buffer, first: bool, t: string, ws: seq<Write>, len: nat)
    ensures WriteAll(b, (if first then [] else [Bar]) + [Put(t)] + ws, len)
      == WriteAll(Written(if first then b else Written(b, Bar, len), Put(t), len), ws, len)
  {
    hide Written;
    if first {
      assert [] + [Put(t)] + ws == [Put(t)] + ws;
    } else {
      assert ([Bar] + [Put(t)] + ws)[1..] == [Put(t)] + ws;
    }
    assert ([Put(t)] + ws)[1..] == ws;
  }

  lemma WritesUnfold(fs: seq<Field>, cur: nat, b: Buffer, len: nat)
    ensures var next := NextEno(fs, cur);
      var marked := if cur == 0 then b else Written(b, Put("v" + Hex(cur) + "_"), len);
      var done := WriteAll(marked, GroupWrites(fs, cur, 0, true), len);
      WriteAll(b, Writes(fs, cur), len) ==
        if next == NO_ENO then done
        else WriteAll(if Group(fs, cur, 0) == [] then done else Written(done, Bar, len), Writes(fs, next), len)
  {
    hide Hex, NextEno, Group, GroupWrites, Written;
    NextEnoIsLeast(fs, cur);
    var next := NextEno(fs, cur);
    var bar: seq<Write> := if Group(fs, cur, 0) == [] then [] else [Bar];
    var rest := if next == NO_ENO then [] else bar + Writes(fs, next);
    var ws := MarkWrites(cur) + GroupWrites(fs, cur, 0, true);
    assert Writes(fs, cur) == ws + rest;
    WriteBoth(b, ws, rest, len);
    WriteBoth(b, MarkWrites(cur), GroupWrites(fs, cur, 0, true), len);
    if next != NO_ENO {
      WriteBoth(WriteAll(b, ws, len), bar, Writes(fs, next), len);
    }
  }

  /** The first write of a group, and the first word. */
  lemma FrontFlat(first: bool, t: string, ws: seq<Write>)
    ensures Flat((if first then [] else [Bar]) + [Put(t)] + ws) == if first then t + Flat(ws) else "_" + (t + Flat(ws))
  {
    var us := [Put(t)] + ws;
    assert us[1..] == ws;
    if first {
      assert [] + [Put(t)] + ws == us;
    } else {
      assert [Bar] + [Put(t)] + ws == [Bar] + us && ([Bar] + us)[1..] == us;
    }
  }

  lemma FrontJoin(t: string, g: seq<string>)
    ensures Join([t] + g) == t + if g == [] then "" else "_" + Join(g)
  {
    assert ([t] + g)[1..] == g;
  }

  lemma {:induction false} GroupFlat(fs: seq<Field>, eno: nat, last: nat, first: bool)
    ensures var g := Group(fs, eno, last);
      && Flat(GroupWrites(fs, eno, last, first)) == (if first || g == [] then Join(g) else "_" + Join(g))
    decreases NO_FT - last
  {
    hide Hex, NextFt, Group, GroupWrites, Flat, Join;
    NextFtIsLeast(fs, eno, last);
    GroupUnfold(fs, eno, last);
    GroupWritesUnfold(fs, eno, last, first);
    JoinNone();
    FlatNone();
    var m := NextFt(fs, eno, last);
    if m != NO_FT {
      GroupFlat(fs, eno, m, false);
      FrontFlat(first, Hex(m), GroupWrites(fs, eno, m, false));
      FrontJoin(Hex(m), Group(fs, eno, m));
    }
  }

  lemma JoinBoth(ts: seq<string>, us: seq<string>)
    ensures Join(ts + us) == if us == [] then Join(ts) else if ts == [] then Join(us) else Join(ts) + "_" + Join(us)
  {
    if ts == [] {
      assert ts + us == us;
    } else if us == [] {
      assert ts + us == ts;
    } else {
      assert (ts + us)[1..] == ts[1..] + us;
      JoinBoth(ts[1..], us);
    }
  }

  lemma MarkFlat(cur: nat)
    ensures Flat(MarkWrites(cur)) == Lead(Mark(cur))
  {
    hide Hex;
  }

  /** The joined words of a mark, a group and what follows. */
  lemma JoinThree(m: seq<string>, g: seq<string>, rest: seq<string>)
    requires g != [] || m == []
    ensures Join(m + g + rest) == Lead(m) + Join(g) + if rest == [] || g == [] then Join(rest) else "_" + Join(rest)
  {
    hide Join;
    JoinBoth(m + g, rest);
    JoinBoth(m, g);
    JoinNone();
    if g == [] {
      assert m + g + rest == rest;
    }
  }

  lemma JoinNone()
    ensures Join([]) == ""
  {
  }

  lemma BarFlat(ws: seq<Write>, bar: bool)
    ensures Flat((if bar then [Bar] else []) + ws) == if bar then "_" + Flat(ws) else Flat(ws)
  {
    if bar {
      assert ([Bar] + ws)[1..] == ws;
    } else {
      assert [] + ws == ws;
    }
  }

  /** Uncut, the writes give the words joined. */
  lemma {:induction false} WritesFlat(fs: seq<Field>, cur: nat)
    requires forall f :: f in fs ==> InRange(f)
    requires cur == 0 || exists f :: f in fs && f.eno == cur
    ensures Flat(Writes(fs, cur)) == Join(Words(fs, cur))
    ensures cur != 0 ==> Words(fs, cur) != []
    decreases NO_ENO - cur
  {
    hide Hex, NextEno, Group, GroupWrites, Join, Lead, Flat, MarkWrites;
    NextEnoIsLeast(fs, cur);
    GroupNotEmpty(fs, cur);
    GroupFlat(fs, cur, 0, true);
    MarkFlat(cur);
    var next, g, ws := NextEno(fs, cur), Group(fs, cur, 0), GroupWrites(fs, cur, 0, true);
    var rest := if next == NO_ENO then [] else (if g == [] then [] else [Bar]) + Writes(fs, next);
    var words := if next == NO_ENO then [] else Words(fs, next);
    assert Writes(fs, cur) == MarkWrites(cur) + ws + rest && Words(fs, cur) == Mark(cur) + g + words;
    FlatBoth(MarkWrites(cur) + ws, rest);
    FlatBoth(MarkWrites(cur), ws);
    JoinThree(Mark(cur), g, words);
    JoinNone();
    FlatNone();
    if next != NO_ENO {
      WritesFlat(fs, next);
      BarFlat(Writes(fs, next), g != []);
    }
  }

  lemma FlatNone()
    ensures Flat([]) == ""
  {
  }

  // ---------------------------------------------------------------- what a cut string names

  predicate IsMark(t: string) {
    t != "" && t[0] == 'v'
  }

  /** Words that name fields in rising order, by enterprise and then by element, and end in an element. */
  predicate Rising(ts: seq<string>, eno: nat, last: nat) {
    && ts != [] && Word(ts[0])
    && if IsMark(ts[0]) then Unhex(ts[0][1..]) > eno && Rising(ts[1..], Unhex(ts[0][1..]), 0)
       else Unhex(ts[0]) > last && (|ts| > 1 ==> Rising(ts[1..], eno, Unhex(ts[0])))
  }

  /** The field of the last word. */
  function LastNamed(ts: seq<string>, eno: nat): Field
    requires ts != []
  {
    if |ts| == 1 then Field(eno, Unhex(ts[0]))
    else LastNamed(ts[1..], if IsMark(ts[0]) then Unhex(ts[0][1..]) else eno)
  }

  lemma {:induction false} LastAbove(ts: seq<string>, eno: nat, last: nat)
    requires Rising(ts, eno, last)
    ensures var f := LastNamed(ts, eno);
      f.ft > 0 && (f.eno > eno || (f.eno == eno && f.ft > last)) && f in Named(ts, eno)
  {
    hide Unhex;
    if IsMark(ts[0]) {
      LastAbove(ts[1..], Unhex(ts[0][1..]), 0);
    } else if |ts| > 1 {
      LastAbove(ts[1..], eno, Unhex(ts[0]));
    }
  }

  lemma {:induction false} UnhexPrefix(t: string, k: nat)
    requires k <= |t|
    ensures Unhex(t[..k]) <= Unhex(t)
    ensures k < |t| && Unhex(t) > 0 ==> Unhex(t[..k]) < Unhex(t)
  {
    if k < |t| {
      UnhexPrefix(t[..|t| - 1], k);
      assert t[..|t| - 1][..k] == t[..k];
    } else {
      assert t[..k] == t;
    }
  }

  lemma SplitWord(t: string)
    requires forall i :: 0 <= i < |t| ==> t[i] != '_'
    ensures Split(t) == if t == "" then [] else [t]
  {
  }

  lemma SplitFirst(t: string, rest: string)
    requires Word(t)
    ensures Split(t + "_" + rest) == [t] + Split(rest)
  {
    var s := t + "_" + rest;
    assert s[|t|] == '_' && forall j :: 0 <= j < |t| ==> s[j] == t[j];
    assert FirstUnderscore(s) == |t|;
    assert s[..|t|] == t && s[|t| + 1..] == rest;
  }

  /** A strict prefix of a rising identification does not name its last field. */
  lemma {:induction false} PrefixMisses(ts: seq<string>, eno: nat, last: nat, k: nat)
    requires Rising(ts, eno, last) && k < |Join(ts)|
    ensures LastNamed(ts, eno) !in Named(Split(Join(ts)[..k]), eno)
    decreases |ts|
  {
    hide Unhex, Split;
    var t, s := ts[0], Join(ts)[..k];
    LastAbove(ts, eno, last);
    UnhexPrefix(t, if k < |t| then k else |t|);
    if k <= |t| {
      assert s == t[..k];
      SplitWord(s);
      if |ts| > 1 && !IsMark(t) {
        LastAbove(ts[1..], eno, Unhex(t));
      }
    } else {
      var rest := Join(ts[1..]);
      var l := k - |t| - 1;
      assert Join(ts) == t + "_" + rest;
      assert s == t + "_" + rest[..l];
      SplitFirst(t, rest[..l]);
      assert ([t] + Split(rest[..l]))[1..] == Split(rest[..l]);
      if IsMark(t) {
        PrefixMisses(ts[1..], Unhex(t[1..]), 0, l);
      } else {
        LastAbove(ts[1..], eno, Unhex(t));
        PrefixMisses(ts[1..], eno, Unhex(t), l);
      }
    }
  }

  lemma NamedFirst(t: string, us: seq<string>, eno: nat)
    ensures Named([t] + us, eno) ==
      if IsMark(t) then Named(us, Unhex(t[1..])) else {Field(eno, Unhex(t))} + Named(us, eno)
  {
    assert ([t] + us)[1..] == us;
  }

  /** An underscore at the end names nothing more, but possibly an element 0. */
  lemma {:induction false} BarNamesNothing(s: string, eno: nat)
    ensures forall f :: f in Named(Split(s + "_"), eno) ==> f.ft == 0 || f in Named(Split(s), eno)
    decreases |s|
  {
    hide Unhex, Split, Named;
    var i := FirstUnderscore(s);
    var t := s[..i];
    if i == |s| {
      assert s + "_" + "" == s + "_";
      SplitAt(s, "");
      SplitWord(s);
      SplitWord("");
      if s == "" {
        UnhexEmpty();
        NamedFirst(s, [], eno);
        NamedNone(eno);
      } else {
        assert [s] + [] == [s];
      }
    } else {
      var rest := s[i + 1..];
      assert s == t + "_" + rest;
      SplitAt(t, rest);
      SplitAt(t, rest + "_");
      assert t + "_" + (rest + "_") == s + "_";
      NamedFirst(t, Split(rest), eno);
      NamedFirst(t, Split(rest + "_"), eno);
      BarNamesNothing(rest, if IsMark(t) then Unhex(t[1..]) else eno);
    }
  }

  lemma NamedNone(eno: nat)
    ensures Named([], eno) == {}
  {
  }

  lemma UnhexEmpty()
    ensures Unhex("") == 0
  {
  }

  /** Also where nothing stands before the underscore. */
  lemma SplitAt(t: string, rest: string)
    requires forall i :: 0 <= i < |t| ==> t[i] != '_'
    ensures Split(t + "_" + rest) == [t] + Split(rest)
  {
    if t == "" {
      var s := t + "_" + rest;
      assert s[0] == '_' && s[1..] == rest && s[..0] == "";
    } else {
      SplitFirst(t, rest);
    }
  }

  // ---------------------------------------------------------------- what the result names

  lemma {:induction false} GroupRises(fs: seq<Field>, eno: nat, last: nat, rest: seq<string>)
    requires forall f :: f in fs ==> InRange(f)
    requires rest != [] ==> IsMark(rest[0]) && Rising(rest, eno, 0)
    requires rest != [] || Group(fs, eno, last) != []
    ensures Rising(Group(fs, eno, last) + rest, eno, last)
    decreases NO_FT - last
  {
    hide Hex, Unhex, NextFt, Group;
    NextFtIsLeast(fs, eno, last);
    GroupStep(fs, eno, last, rest);
    GroupUnfold(fs, eno, last);
    var m := NextFt(fs, eno, last);
    if m != NO_FT {
      UnhexHex(m);
      var h := Hex(m);
      assert HexDigit(h[0]) && forall i :: 0 <= i < |h| ==> HexDigit(h[i]);
      var more := Group(fs, eno, m) + rest;
      assert ([h] + more)[1..] == more;
      if more != [] {
        GroupRises(fs, eno, m, rest);
      }
    }
  }

  /** The words name the fields in rising order. */
  lemma {:induction false} WordsRise(fs: seq<Field>, cur: nat, before: nat)
    requires forall f :: f in fs ==> InRange(f)
    requires if cur == 0 then before == 0 && fs != [] else before < cur && exists f :: f in fs && f.eno == cur
    ensures Words(fs, cur) != [] && Rising(Words(fs, cur), before, 0)
    ensures cur != 0 ==> IsMark(Words(fs, cur)[0])
    decreases NO_ENO - cur
  {
    hide Hex, Unhex, NextEno, Group, Mark, Rising, IsMark;
    NextEnoIsLeast(fs, cur);
    GroupNotEmpty(fs, cur);
    var next, g := NextEno(fs, cur), Group(fs, cur, 0);
    var rest := if next == NO_ENO then [] else Words(fs, next);
    assert Words(fs, cur) == Mark(cur) + (g + rest);
    assert fs[0] in fs;
    if next != NO_ENO {
      WordsRise(fs, next, cur);
    }
    GroupRises(fs, cur, 0, rest);
    MarkRises(cur, before, g + rest);
  }

  lemma MarkRises(cur: nat, before: nat, rest: seq<string>)
    requires Rising(rest, cur, 0) && (cur == 0 || before < cur) && (cur == 0 ==> before == 0)
    ensures Mark(cur) + rest != [] && Rising(Mark(cur) + rest, before, 0)
    ensures cur != 0 ==> IsMark((Mark(cur) + rest)[0])
  {
    hide Hex, Unhex;
    if cur == 0 {
      assert [] + rest == rest;
    } else {
      UnhexHex(cur);
      var h := Hex(cur);
      assert forall i :: 0 <= i < |h| ==> HexDigit(h[i]);
      var v := "v" + h;
      assert v[1..] == h && ([v] + rest)[1..] == rest;
    }
  }

  /** The string that comes out names the fields of the template. */
  ghost predicate NamesFields(b: Buffer, fs: seq<Field>) {
    b.Text? && Named(Split(b.s), 0) == set f | f in fs
  }

  lemma CutNamesLess(fs: seq<Field>, k: nat)
    requires forall f :: f in fs ==> InRange(f)
    requires fs != [] && k < |Ident(fs)|
    ensures !NamesFields(Text(Ident(fs)[..k]), fs) && !NamesFields(Text(Ident(fs)[..k] + "_"), fs)
  {
    hide Named, Split, Words;
    WordsRise(fs, 0, 0);
    var ts := Words(fs, 0);
    LastAbove(ts, 0, 0);
    NamedWords(fs, 0, 0);
    PrefixMisses(ts, 0, 0, k);
    BarNamesNothing(Ident(fs)[..k], 0);
    assert From(fs, 0) == set f | f in fs;
    assert LastNamed(ts, 0) in set f | f in fs;
  }

  /** The result names the fields of the template, and is its canonical string, exactly when that fits: when it has
      less than ten characters for each field. */
  lemma ResultFitsIff(fs: seq<Field>)
    requires forall f :: f in fs ==> InRange(f)
    ensures NamesFields(Result(fs), fs) <==> Fits(fs)
    ensures Result(fs) == Text(Ident(fs)) <==> Fits(fs)
  {
    hide Writes, Words, Named, Split, Late;
    IdentNamesFields(fs);
    if Fits(fs) {
      ResultIsWhole(fs);
    } else {
      ResultIsCut(fs);
      CutNamesLess(fs, 10 * |fs| - 1);
    }
  }

  lemma IdentIsFlat(fs: seq<Field>)
    requires forall f :: f in fs ==> InRange(f)
    ensures Flat(Writes(fs, 0)) == Ident(fs)
  {
    hide Writes, Words, Flat, Join;
    WritesFlat(fs, 0);
  }

  /** What does not fit comes out cut, as far as the buffer is not overrun. */
  lemma ResultIsCut(fs: seq<Field>)
    requires forall f :: f in fs ==> InRange(f)
    requires fs != [] && !Fits(fs)
    ensures Result(fs) == CutWith(Ident(fs)[..10 * |fs| - 1], Late(Writes(fs, 0), 0, 10 * |fs|))
  {
    hide Writes, Ident, Late, WriteAll, CutWith, Flat;
    IdentIsFlat(fs);
    WrittenCut("", Writes(fs, 0), 10 * |fs|);
    assert "" + Ident(fs) == Ident(fs);
  }

  lemma ResultIsWhole(fs: seq<Field>)
    requires forall f :: f in fs ==> InRange(f)
    requires Fits(fs)
    ensures Result(fs) == Text(Ident(fs)) && Late(Writes(fs, 0), 0, 10 * |fs|) == 0
  {
    hide Writes, Ident, Late, WriteAll, Flat;
    IdentIsFlat(fs);
    if fs == [] {
      NothingWritten();
    } else {
      WrittenWhole("", Writes(fs, 0), 10 * |fs|);
      NoneLate(Writes(fs, 0), 0, 10 * |fs|);
      assert "" + Ident(fs) == Ident(fs);
    }
  }

  /** The buffer is overrun exactly if two underscores or more are late, and then the string does not fit. */
  lemma OverrunIff(fs: seq<Field>)
    requires forall f :: f in fs ==> InRange(f)
    ensures Result(fs) == Overrun <==> Late(Writes(fs, 0), 0, 10 * |fs|) >= 2
    ensures Result(fs) == Overrun ==> !Fits(fs)
  {
    hide Writes, Ident, Late, Result, Fits;
    if Fits(fs) {
      ResultIsWhole(fs);
    } else {
      EmptyFits(fs);
      ResultIsCut(fs);
    }
  }

  lemma EmptyFits(fs: seq<Field>)
    ensures !Fits(fs) ==> fs != [] && |Ident(fs)| >= 10 * |fs|
  {
  }

  lemma NothingWritten()
    ensures Ident([]) == "" && Result([]) == Text("") && Late(Writes([], 0), 0, 0) == 0
  {
  }

  /** Two templates whose strings fit get the same result exactly when they have the same set of fields. */
  lemma ResultIsCanonical(fs: seq<Field>, gs: seq<Field>)
    requires forall f :: f in fs ==> InRange(f)
    requires forall f :: f in gs ==> InRange(f)
    requires Fits(fs) && Fits(gs)
    ensures Result(fs) == Result(gs) <==> (set f | f in fs) == (set f | f in gs)
  {
    ResultFitsIff(fs);
    ResultFitsIff(gs);
    IdentIsCanonical(fs, gs);
  }

  // ---------------------------------------------------------------- templates whose string fits

  /** The enterprises of the fields, from `cur` on; no mark is written for 0. */
  ghost function Enterprises(fs: seq<Field>, cur: nat): set<nat> {
    set f | f in fs && f.eno >= cur && f.eno != 0 :: f.eno
  }

  /** The number of fields of enterprises from `cur` on. */
  function CountFrom(fs: seq<Field>, cur: nat): nat {
    if fs == [] then 0 else CountFrom(fs[..|fs| - 1], cur) + if fs[|fs| - 1].eno >= cur then 1 else 0
  }

  lemma {:induction false} CountFromSplits(fs: seq<Field>, cur: nat, next: nat)
    requires cur < next
    ensures Count(fs, cur, 0) + CountFrom(fs, next) <= CountFrom(fs, cur) <= |fs|
  {
    if fs != [] {
      CountFromSplits(fs[..|fs| - 1], cur, next);
    }
  }

  /** A number below 16^k has at most k digits. */
  lemma {:induction false} HexIsShort(n: nat, k: nat, bound: nat)
    requires k > 0 && bound == Power16(k) && n < bound
    ensures |Hex(n)| <= k
    decreases k
  {
    if n >= 16 {
      HexIsShort(n / 16, k - 1, Power16(k - 1));
    }
  }

  function Power16(k: nat): nat {
    if k == 0 then 1 else 16 * Power16(k - 1)
  }

  /** Each element takes at most five characters with its separator. */
  lemma {:induction false} GroupLength(fs: seq<Field>, eno: nat, last: nat)
    requires forall f :: f in fs ==> InRange(f)
    ensures |Lead(Group(fs, eno, last))| <= 5 * |Group(fs, eno, last)|
    decreases NO_FT - last
  {
    hide Hex, NextFt, Group;
    NextFtIsLeast(fs, eno, last);
    GroupUnfold(fs, eno, last);
    var m := NextFt(fs, eno, last);
    if m != NO_FT {
      GroupLength(fs, eno, m);
      HexIsShort(m, 4, 0x1_0000);
      var g := Group(fs, eno, m);
      assert ([Hex(m)] + g)[1..] == g;
    }
  }

  lemma LeadBoth(ts: seq<string>, us: seq<string>)
    ensures |Lead(ts + us)| == |Lead(ts)| + |Lead(us)|
  {
    JoinBoth(ts, us);
    if ts == [] {
      assert ts + us == us;
    } else if us == [] {
      assert ts + us == ts;
    }
  }

  /** Each enterprise takes at most ten characters more. */
  lemma {:induction false} WordsLength(fs: seq<Field>, cur: nat)
    requires forall f :: f in fs ==> InRange(f)
    requires cur == 0 || exists f :: f in fs && f.eno == cur
    ensures |Lead(Words(fs, cur))| <= 5 * CountFrom(fs, cur) + 10 * |Enterprises(fs, cur)|
    decreases NO_ENO - cur
  {
    hide Hex, NextEno, Group, Lead;
    NextEnoIsLeast(fs, cur);
    GroupLength(fs, cur, 0);
    GroupIsShort(fs, cur, 0);
    var next, g := NextEno(fs, cur), Group(fs, cur, 0);
    CountFromSplits(fs, cur, next);
    var rest := if next == NO_ENO then [] else Words(fs, next);
    assert Words(fs, cur) == Mark(cur) + g + rest;
    LeadBoth(Mark(cur) + g, rest);
    LeadBoth(Mark(cur), g);
    MarkLength(cur);
    LeadOfNone();
    EnterprisesStep(fs, cur);
    if next != NO_ENO {
      WordsLength(fs, next);
    }
  }

  lemma LeadOfNone()
    ensures Lead([]) == ""
  {
  }

  lemma MarkLength(cur: nat)
    requires cur < NO_ENO
    ensures |Lead(Mark(cur))| <= if cur == 0 then 0 else 10
  {
    hide Hex;
    HexIsShort(cur, 8, 0x1_0000_0000);
  }

  lemma EnterprisesStep(fs: seq<Field>, cur: nat)
    requires forall f :: f in fs ==> InRange(f)
    requires cur == 0 || exists f :: f in fs && f.eno == cur
    ensures var next := NextEno(fs, cur);
      |Enterprises(fs, cur)| == (if cur == 0 then 0 else 1) + if next == NO_ENO then 0 else |Enterprises(fs, next)|
  {
    hide NextEno;
    NextEnoIsLeast(fs, cur);
    var next := NextEno(fs, cur);
    var more := if next == NO_ENO then {} else Enterprises(fs, next);
    if cur == 0 {
      assert Enterprises(fs, cur) == more;
    } else {
      assert Enterprises(fs, cur) == {cur} + more && cur !in more;
    }
  }

  /** The string fits if there are at least two fields for each enterprise other than 0, so always if there is none. */
  lemma FewEnterprisesFit(fs: seq<Field>)
    requires forall f :: f in fs ==> InRange(f)
    requires 2 * |Enterprises(fs, 0)| <= |fs|
    ensures Fits(fs)
  {
    hide Words;
    WordsLength(fs, 0);
    CountFromSplits(fs, 0, 1);
    if fs != [] {
      WordsRise(fs, 0, 0);
    }
  }

  lemma StandardFieldsFit(fs: seq<Field>)
    requires forall f :: f in fs ==> InRange(f) && f.eno == 0
    ensures Fits(fs)
  {
    assert Enterprises(fs, 0) == {};
    FewEnterprisesFit(fs);
  }

  /** A number from 16^k on has more than k digits. */
  lemma {:induction false} HexIsLong(n: nat, k: nat)
    requires n >= Power16(k)
    ensures |Hex(n)| > k
    decreases k
  {
    if k > 0 {
      HexIsLong(n / 16, k - 1);
    }
  }

  /** The enterprises and elements of a single field. */
  lemma LoneNext(eno: nat, ft: nat)
    requires 0 < eno < NO_ENO && InRange(Field(eno, ft))
    ensures var fs := [Field(eno, ft)];
      && NextEno(fs, 0) == eno && NextEno(fs, eno) == NO_ENO
      && NextFt(fs, 0, 0) == NO_FT && NextFt(fs, eno, 0) == ft && NextFt(fs, eno, ft) == NO_FT
  {
    assert [Field(eno, ft)][..0] == [];
  }

  /** What is written for one field. */
  lemma LoneField(eno: nat, ft: nat)
    requires 0 < eno < NO_ENO && InRange(Field(eno, ft))
    ensures Writes([Field(eno, ft)], 0) == [Put("v" + Hex(eno) + "_"), Put(Hex(ft))]
    ensures Ident([Field(eno, ft)]) == "v" + Hex(eno) + "_" + Hex(ft)
  {
    hide Hex, NextEno, NextFt, Group, GroupWrites;
    var fs := [Field(eno, ft)];
    LoneNext(eno, ft);
    GroupUnfold(fs, 0, 0);
    GroupUnfold(fs, eno, 0);
    GroupUnfold(fs, eno, ft);
    GroupWritesUnfold(fs, 0, 0, true);
    GroupWritesUnfold(fs, eno, 0, true);
    GroupWritesUnfold(fs, eno, ft, false);
    assert Group(fs, eno, 0) == [Hex(ft)] && GroupWrites(fs, eno, 0, true) == [Put(Hex(ft))];
    assert Writes(fs, eno) == [Put("v" + Hex(eno) + "_"), Put(Hex(ft))];
    assert Words(fs, eno) == ["v" + Hex(eno), Hex(ft)];
    assert Words(fs, 0) == Words(fs, eno) && Writes(fs, 0) == Writes(fs, eno);
    FrontJoin("v" + Hex(eno), [Hex(ft)]);
    assert Join([Hex(ft)]) == Hex(ft);
  }

  /** One field of an enterprise of eight digits does not fit, whatever it is: all get the string of the bare mark. */
  lemma LoneFieldIsCut(eno: nat, ft: nat)
    requires 0x1000_0000 <= eno < NO_ENO && InRange(Field(eno, ft))
    ensures Result([Field(eno, ft)]) == Text("v" + Hex(eno)) && !Fits([Field(eno, ft)])
  {
    hide Hex, Writes, Ident;
    LoneField(eno, ft);
    HexIsLong(eno, 7);
    HexIsShort(eno, 8, 0x1_0000_0000);
    var v := "v" + Hex(eno);
    assert (v + "_")[..9] == v;
    var fs := [Field(eno, ft)];
    assert Writes(fs, 0)[1..] == [Put(Hex(ft))];
    assert Written(Text(""), Put(v + "_"), 10) == Text(v);
    assert WriteAll(Text(v), [Put(Hex(ft))], 10) == Text(v);
  }

  // ---------------------------------------------------------------- a family that overruns the buffer

  /** All fields have different enterprises of eight digits, and elements of four. */
  predicate AllLong(fs: seq<Field>) {
    && (forall f :: f in fs ==> InRange(f) && f.eno >= 0x1000_0000 && f.ft >= 0x1000)
    && forall i, j :: 0 <= i < j < |fs| ==> fs[i].eno != fs[j].eno
  }

  /** The only field of an enterprise. */
  lemma LoneGroup(fs: seq<Field>, f: Field)
    requires AllLong(fs) && f in fs
    ensures NextFt(fs, f.eno, 0) == f.ft && NextFt(fs, f.eno, f.ft) == NO_FT
  {
    hide NextFt;
    NextFtIsLeast(fs, f.eno, 0);
    NextFtIsLeast(fs, f.eno, f.ft);
    var i :| 0 <= i < |fs| && fs[i] == f;
    forall g | g in fs && g.eno == f.eno ensures g == f {
      var j :| 0 <= j < |fs| && fs[j] == g;
      assert i == j;
    }
  }

  /** It is written with fourteen characters. */
  lemma LongWrites(fs: seq<Field>, cur: nat, k: nat, len: nat)
    requires AllLong(fs) && exists f :: f in fs && f.eno == cur
    ensures var ws := MarkWrites(cur) + GroupWrites(fs, cur, 0, true);
      |Flat(ws)| == 14 && Late(ws, k, len) == 0 && Group(fs, cur, 0) != []
  {
    hide Hex, NextFt, Group, GroupWrites;
    var f :| f in fs && f.eno == cur;
    LoneGroup(fs, f);
    GroupUnfold(fs, cur, 0);
    GroupWritesUnfold(fs, cur, 0, true);
    GroupWritesUnfold(fs, cur, f.ft, false);
    HexIsLong(cur, 7);
    HexIsShort(cur, 8, 0x1_0000_0000);
    HexIsLong(f.ft, 3);
    HexIsShort(f.ft, 4, 0x1_0000);
    var mark, element := Put("v" + Hex(cur) + "_"), Put(Hex(f.ft));
    assert MarkWrites(cur) + GroupWrites(fs, cur, 0, true) == [mark, element];
    TwoPuts(mark.text, element.text, k, len);
  }

  lemma TwoPuts(a: string, b: string, k: nat, len: nat)
    ensures Flat([Put(a), Put(b)]) == a + b && Late([Put(a), Put(b)], k, len) == 0
  {
    var one: seq<Write> := [Put(b)];
    assert [Put(a), Put(b)][1..] == one && one[1..] == [];
    assert Flat(one) == b + Flat(one[1..]) == b;
    assert Late(one, k + |a|, len) == Late(one[1..], k + |a| + |b|, len) == 0;
  }

  /** Of `m` such fields from position `k` on, the underscores behind all but the last that are late. */
  function LateOf(m: nat, k: nat, len: nat): nat {
    if m <= 1 then 0 else (if k + 15 >= len then 1 else 0) + LateOf(m - 1, k + 15, len)
  }

  lemma {:induction false} LateIs(fs: seq<Field>, cur: nat, k: nat, len: nat)
    requires AllLong(fs) && exists f :: f in fs && f.eno == cur
    ensures |Enterprises(fs, cur)| >= 1
    ensures Late(Writes(fs, cur), k, len) == LateOf(|Enterprises(fs, cur)|, k, len)
    ensures |Flat(Writes(fs, cur))| == 15 * |Enterprises(fs, cur)| - 1
    decreases NO_ENO - cur
  {
    hide Hex, NextEno, Group, GroupWrites, MarkWrites, Late, Flat, Enterprises;
    NextEnoIsLeast(fs, cur);
    EnterprisesStep(fs, cur);
    LongWrites(fs, cur, k, len);
    var next, ws := NextEno(fs, cur), MarkWrites(cur) + GroupWrites(fs, cur, 0, true);
    if next == NO_ENO {
      assert Writes(fs, cur) == ws + [];
      assert ws + [] == ws;
    } else {
      assert Writes(fs, cur) == ws + ([Bar] + Writes(fs, next));
      LateBoth(ws, [Bar] + Writes(fs, next), k, len);
      LateBar(Writes(fs, next), k + 14, len);
      FlatBoth(ws, [Bar] + Writes(fs, next));
      BarFlat(Writes(fs, next), true);
      LateIs(fs, next, k + 15, len);
    }
  }

  lemma LateBar(ws: seq<Write>, k: nat, len: nat)
    ensures Late([Bar] + ws, k, len) == (if k + 1 >= len then 1 else 0) + Late(ws, k + 1, len)
  {
    assert ([Bar] + ws)[1..] == ws;
  }

  lemma {:induction false} EnterprisesOf(fs: seq<Field>)
    requires AllLong(fs)
    ensures |Enterprises(fs, 0)| == |fs|
  {
    if fs != [] {
      var n := |fs| - 1;
      var init := fs[..n];
      assert forall f :: f in fs <==> f in init || f == fs[n];
      EnterprisesOf(init);
      assert fs[n].eno !in Enterprises(init, 0);
      assert Enterprises(fs, 0) == Enterprises(init, 0) + {fs[n].eno};
    }
  }

  /** The underscore behind the i-th of n fields is late if 15 i >= 10 n. */
  lemma {:induction false} LateOfIs(n: nat, m: nat)
    requires 1 <= m <= n
    ensures var first := (2 * n + 2) / 3;
      LateOf(m, 15 * (n - m), 10 * n) == if n - m + 1 >= first then m - 1 else n - first
    decreases m
  {
    if m > 1 {
      LateOfIs(n, m - 1);
    }
  }

  /** Such a template overruns the buffer exactly if it has six fields or more. With one or two it is cut, and with
      three to five cut with an underscore behind it. */
  lemma LongTemplatesOverrunIff(fs: seq<Field>)
    requires AllLong(fs) && fs != []
    ensures !Fits(fs) && Result(fs) == CutWith(Ident(fs)[..10 * |fs| - 1], |fs| / 3)
    ensures Result(fs) == Overrun <==> |fs| >= 6
  {
    hide Writes, Words, Enterprises, Late, Flat;
    var n := |fs|;
    WritesFlat(fs, 0);
    LateFromFirst(fs);
    EnterprisesOf(fs);
    LateOfIs(n, n);
    ResultIsCut(fs);
    assert n - (2 * n + 2) / 3 == n / 3;
  }

  /** No mark is written before the first enterprise. */
  lemma LateFromFirst(fs: seq<Field>)
    requires AllLong(fs) && fs != []
    ensures Late(Writes(fs, 0), 0, 10 * |fs|) == LateOf(|Enterprises(fs, 0)|, 0, 10 * |fs|)
    ensures |Flat(Writes(fs, 0))| == 15 * |Enterprises(fs, 0)| - 1
  {
    hide NextEno, Group, GroupWrites, Late, Flat, Enterprises;
    NextEnoIsLeast(fs, 0);
    EnterprisesStep(fs, 0);
    GroupNotEmpty(fs, 0);
    GroupUnfold(fs, 0, 0);
    GroupWritesUnfold(fs, 0, 0, true);
    var next := NextEno(fs, 0);
    assert fs[0] in fs;
    assert GroupWrites(fs, 0, 0, true) == [];
    assert Writes(fs, 0) == Writes(fs, next);
    LateIs(fs, next, 0, 10 * |fs|);
  }

  /** Six fields of different enterprises with the longest numbers. */
  lemma SixFieldsOverrun()
    ensures var fs := seq(6, (i: nat) => Field(0x1000_0000 + i, 0x7FFF));
      (forall f :: f in fs ==> InRange(f)) && Result(fs) == Overrun
  {
    LongTemplatesOverrunIff(seq(6, (i: nat) => Field(0x1000_0000 + i, 0x7FFF)));
  }

  // ---------------------------------------------------------------- the selection loops

  /** The fields of an enterprise with element numbers above `last`. */
  function Count(fs: seq<Field>, eno: nat, last: nat): nat {
    if fs == [] then 0 else
      Count(fs[..|fs| - 1], eno, last) + if fs[|fs| - 1].eno == eno && fs[|fs| - 1].ft > last then 1 else 0
  }

  lemma {:induction false} CountDrops(fs: seq<Field>, eno: nat, last: nat, m: nat)
    requires last <= m
    ensures Count(fs, eno, m) <= Count(fs, eno, last) <= |fs|
    ensures last < m && Field(eno, m) in fs ==> Count(fs, eno, m) < Count(fs, eno, last)
  {
    if fs != [] {
      CountDrops(fs[..|fs| - 1], eno, last, m);
      assert forall f :: f in fs <==> f in fs[..|fs| - 1] || f == fs[|fs| - 1];
    }
  }

  /** So many rounds as there are fields are enough to list a group. */
  lemma {:induction false} GroupIsShort(fs: seq<Field>, eno: nat, last: nat)
    ensures |Group(fs, eno, last)| <= Count(fs, eno, last) <= |fs|
    decreases NO_FT - last
  {
    NextFtIsLeast(fs, eno, last);
    var m := NextFt(fs, eno, last);
    CountDrops(fs, eno, last, last);
    if m != NO_FT {
      GroupIsShort(fs, eno, m);
      CountDrops(fs, eno, last, m);
    }
  }

  /** One pass over the fields: the least element number of the current enterprise above `last`, and the
      least enterprise number above the current one. `hits` counts the improvements found. */
  method Pass(fs: seq<Field>, cur: nat, last: nat, nextIn: nat) returns (min: nat, next: nat, hits: nat)
    requires nextIn == NO_ENO || nextIn == NextEno(fs, cur)
    ensures min == NextFt(fs, cur, last) && next == NextEno(fs, cur)
    ensures hits > 0 <==> min != NO_FT
  {
    min, next, hits := NO_FT, nextIn, 0;
    var i := 0;
    while i < |fs|
      invariant i <= |fs|
      invariant min == NextFt(fs[..i], cur, last) && (hits > 0 <==> min != NO_FT)
      invariant next == if nextIn == NO_ENO then NextEno(fs[..i], cur) else nextIn
    {
      assert fs[..i + 1][..i] == fs[..i];
      NextFtIsLeast(fs[..i], cur, last);
      if nextIn != NO_ENO {
        NextEnoIsLeast(fs, cur);
        assert fs[i] in fs;
      }
      if fs[i].eno == cur && fs[i].ft < min && fs[i].ft > last {
        min := fs[i].ft;
        hits := hits + 1;
      }
      if fs[i].eno < next && fs[i].eno > cur {
        next := fs[i].eno;
      }
      i := i + 1;
    }
    assert fs[..i] == fs;
  }

  /** The elements of one enterprise, each found by a pass, written behind `lead`. */
  method WriteGroup(fs: seq<Field>, cur: nat, lead: Buffer, len: nat)
    returns (ident: Buffer, next: nat, found: nat)
    ensures ident == WriteAll(lead, GroupWrites(fs, cur, 0, true), len)
    ensures found > 0 <==> Group(fs, cur, 0) != []
    ensures fs != [] ==> next == NextEno(fs, cur)
    ensures fs == [] ==> next == NO_ENO
  {
    hide Hex, NextFt, NextEno, Group, GroupWrites;
    ident, next, found := lead, NO_ENO, 0;
    var last, j := 0, 0;
    GroupIsShort(fs, cur, 0);
    while j < |fs|
      invariant 0 <= j <= |fs|
      invariant j + |Group(fs, cur, last)| == |Group(fs, cur, 0)|
      invariant WriteAll(ident, GroupWrites(fs, cur, last, j == 0), len) == WriteAll(lead, GroupWrites(fs, cur, 0, true), len)
      invariant found >= j && (found > 0 <==> j > 0)
      invariant next == if j == 0 then NO_ENO else NextEno(fs, cur)
    {
      var min, n, hits := Pass(fs, cur, last, next);
      next, found := n, found + hits;
      GroupUnfold(fs, cur, last);
      GroupWritesUnfold(fs, cur, last, j == 0);
      if min == NO_FT {
        break;
      }
      WriteFront(ident, j == 0, Hex(min), GroupWrites(fs, cur, min, false), len);
      if j > 0 && found > 1 {
        ident := Written(ident, Bar, len);
      }
      ident := Written(ident, Put(Hex(min)), len);
      last := min;
      j := j + 1;
    }
    GroupWritesUnfold(fs, cur, last, j == 0);
    GroupUnfold(fs, cur, last);
  }

  /** The string that the program makes, or that it would write past the buffer. */
  method GetTemplateIdent(fs: seq<Field>) returns (ident: Buffer)
    requires forall f :: f in fs ==> InRange(f)
    ensures ident == Result(fs)
    ensures ident == Text(Ident(fs)) <==> Fits(fs)
  {
    var len := 10 * |fs|;
    ident := Text("");
    var cur := 0;
    while true
      invariant cur < NO_ENO
      invariant WriteAll(ident, Writes(fs, cur), len) == Result(fs)
      invariant cur != 0 ==> exists f :: f in fs && f.eno == cur
      decreases NO_ENO - cur
    {
      hide Writes, Group, GroupWrites, Hex, NextEno, NextFt;
      WritesUnfold(fs, cur, ident, len);
      if cur != 0 {
        ident := Written(ident, Put("v" + Hex(cur) + "_"), len);
      }
      var found, next;
      ident, next, found := WriteGroup(fs, cur, ident, len);
      NextEnoIsLeast(fs, cur);
      GroupNotEmpty(fs, cur);
      if next == NO_ENO {
        break;
      }
      if next > cur && found > 0 {
        ident := Written(ident, Bar, len);
      }
      cur := next;
    }
    ResultFitsIff(fs);
  }

  lemma GroupNotEmpty(fs: seq<Field>, eno: nat)
    requires forall f :: f in fs ==> InRange(f)
    ensures (exists f :: f in fs && f.eno == eno) <==> Group(fs, eno, 0) != []
    ensures fs == [] ==> NextEno(fs, eno) == NO_ENO
  {
    NextFtIsLeast(fs, eno, 0);
  }
}
