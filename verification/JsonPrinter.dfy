/** The printer of lua-cjson.c: which text a Lua value becomes, and the code that appends it to a string buffer. */
module JsonPrinter {
  import opened Bytes
  import opened LuaValues
  import opened LuaTables
  import opened JsonString
  import opened JsonBuffer

  const MAX_DEPTH := 1000
  const SPARSE_RATIO := 2
  const SPARSE_SAFE := 10
  const NUMBER_SIZE := 32

  const TRUE: bytes := [116, 114, 117, 101]
  const FALSE: bytes := [102, 97, 108, 115, 101]
  const NULL: bytes := [110, 117, 108, 108]

  /** Formats a number as the C library does. The text is short and has no NUL. */
  type Formatter = Lua -> bytes

  ghost predicate Formats(fmt: Formatter) {
    forall v :: |fmt(v)| < NUMBER_SIZE && 0 !in fmt(v) && fmt(v) != []
  }

  datatype PrintError = NotFinite | BadKey | TooSparse | TooDeep

  datatype Printed = Text(s: bytes) | Refused(e: PrintError)

  function Then(a: Printed, b: Printed): Printed {
    if a.Refused? then a else if b.Refused? then b else Text(a.s + b.s)
  }

  /** All exponent bits set: an infinity or not a number. */
  predicate NotFiniteNumber(v: Lua) {
    v.Double? && |v.ieee| >= 2 && v.ieee[0] % 128 == 127 && v.ieee[1] >= if |v.ieee| == 4 then 128 else 240
  }

  /** Integer keys that a C int holds, in the value and in every value inside it. */
  predicate CIntKeys(v: Lua) {
    v.Table? ==> forall e :: e in v.sets ==> (e.key.Int? ==> e.key.n <= 0x7fff_ffff) && CIntKeys(e.val)
  }

  /** The largest key when all are positive integers, and -1 for an object. */
  function ArrayLength(sets: seq<Assign>): int {
    if IndexKeys(sets) then MaxKey(sets) else -1
  }

  predicate ExcessivelySparse(sets: seq<Assign>) {
    ArrayLength(sets) > |sets| * SPARSE_RATIO && ArrayLength(sets) > SPARSE_SAFE
  }

  function PrintNumber(fmt: Formatter, v: Lua): Printed {
    if NotFiniteNumber(v) then Refused(NotFinite) else Text(fmt(v))
  }

  function Print(fmt: Formatter, v: Lua, depth: nat): Printed
    decreases v
  {
    match v
    case Nil => Text(NULL)
    case Null => Text(NULL)
    case Bool(b) => Text(if b then TRUE else FALSE)
    case Int(_) => PrintNumber(fmt, v)
    case Double(_) => PrintNumber(fmt, v)
    case Str(s) => Text(Quoted(s))
    case Table(sets) =>
      if depth + 1 > MAX_DEPTH then Refused(TooDeep)
      else if ExcessivelySparse(sets) then Refused(TooSparse)
      else if ArrayLength(sets) > 0 then
        Then(Text([91]), PrintElements(fmt, v, KeyOrder(sets, ArrayLength(sets)), 0, depth + 1))
      else
        Then(Text([123]), PrintMembers(fmt, v, 0, depth + 1))
  }

  function Separator(i: nat): bytes {
    if i == 0 then [] else [44]
  }

  function PrintElement(fmt: Formatter, t: Lua, p: nat, depth: nat): Printed
    requires t.Table?
    decreases t, 0
  {
    if p >= |t.sets| then Text(NULL) else Print(fmt, t.sets[p].val, depth)
  }

  /** The elements from the j-th on, each but the first after a comma, and the closing bracket. */
  function PrintElements(fmt: Formatter, t: Lua, order: seq<nat>, j: nat, depth: nat): Printed
    requires t.Table? && j <= |order|
    decreases t, 1, |order| - j
  {
    if j == |order| then Text([93]) else
      Then(Then(Text(Separator(j)), PrintElement(fmt, t, order[j], depth)), PrintElements(fmt, t, order, j + 1, depth))
  }

  function PrintKey(fmt: Formatter, k: Lua): Printed {
    match k
    case Int(_) => Then(Then(Text([QUOTE]), PrintNumber(fmt, k)), Text([QUOTE, 58]))
    case Double(_) => Then(Then(Text([QUOTE]), PrintNumber(fmt, k)), Text([QUOTE, 58]))
    case Str(s) => Text(Quoted(s) + [58])
    case _ => Refused(BadKey)
  }

  function PrintMember(fmt: Formatter, t: Lua, i: nat, depth: nat): Printed
    requires t.Table? && i < |t.sets|
    decreases t, 0
  {
    Then(PrintKey(fmt, t.sets[i].key), Print(fmt, t.sets[i].val, depth))
  }

  function PrintMembers(fmt: Formatter, t: Lua, i: nat, depth: nat): Printed
    requires t.Table? && i <= |t.sets|
    decreases t, 1, |t.sets| - i
  {
    if i == |t.sets| then Text([125]) else
      Then(Then(Text(Separator(i)), PrintMember(fmt, t, i, depth)), PrintMembers(fmt, t, i + 1, depth))
  }

  // ---------------------------------------------------------------- appending to a buffer

  datatype Outcome = Done | Raised(e: PrintError)

  /** Before and after an append that may be refused. */
  ghost predicate Follows(before: bytes, after: bytes, o: Outcome, p: Printed) {
    match p
    case Text(s) => o == Done && after == before + s
    case Refused(f) => o == Raised(f)
  }

  lemma FollowsThen(a: bytes, b: bytes, c: bytes, p: Printed, q: Printed, o: Outcome)
    requires Follows(a, b, Done, p) && Follows(b, c, o, q)
    ensures Follows(a, c, o, Then(p, q))
  {
    if p.Text? && q.Text? {
      Associative(a, p.s, q.s);
    }
  }

  lemma FollowsStop(a: bytes, b: bytes, p: Printed, q: Printed, e: PrintError)
    requires Follows(a, b, Raised(e), p)
    ensures Follows(a, b, Raised(e), Then(p, q))
  {
  }

  lemma ThenAssociates(p: Printed, q: Printed, r: Printed)
    ensures Then(Then(p, q), r) == Then(p, Then(q, r))
  {
    if p.Text? && q.Text? && r.Text? {
      Associative(p.s, q.s, r.s);
    }
  }

  lemma EscapedStep(s: bytes, i: nat)
    requires i < |s|
    ensures Escaped(s[..i + 1]) == Escaped(s[..i]) + EscapeOf(s[i])
  {
    assert s[..i + 1][..i] == s[..i];
  }

  /** Room for six bytes a character and two quotes is reserved once; the appends after that need no check and
      the checked ones never grow the buffer. */
  method AppendQuoted(json: StrBuf, s: bytes)
    requires json.Valid()
    modifies json, json.buf
    ensures json.Valid() && (json.buf == old(json.buf) || fresh(json.buf))
    ensures json.Contents() == old(json.Contents()) + Quoted(s)
    ensures json.size == old(json.size) || json.size < 2 * (old(json.length) + 6 * |s| + 3)
  {
    hide Escaped, EscapeOf;
    json.EnsureEmptyLength(|s| * 6 + 2);
    ghost var was, room, buf := json.Contents(), json.size, json.buf;
    json.AppendCharUnsafe(QUOTE);
    ghost var started := json.Contents();
    var i := 0;
    EscapedNothing();
    while i < |s|
      invariant i <= |s| && json.Valid() && json.buf == buf && json.size == room
      invariant json.Contents() == started + Escaped(s[..i])
      invariant json.EmptyLength() >= 6 * (|s| - i) + 1
    {
      EscapedStep(s, i);
      Associative(started, Escaped(s[..i]), EscapeOf(s[i]));
      var c := s[i];
      if ShortEscape(c) != 0 || c < 32 || c == 127 {
        json.AppendString(EscapeOf(c));
      } else {
        PlainEscape(c);
        json.AppendCharUnsafe(c);
      }
      i := i + 1;
    }
    assert s[..i] == s;
    json.AppendCharUnsafe(QUOTE);
    Associative(was, [QUOTE], Escaped(s));
    Associative(was, [QUOTE] + Escaped(s), [QUOTE]);
  }

  lemma EscapedNothing()
    ensures Escaped([]) == []
  {
  }

  lemma PlainEscape(c: byte)
    requires ShortEscape(c) == 0 && c >= 32 && c != 127
    ensures EscapeOf(c) == [c]
  {
  }

  method MeasureArray(sets: seq<Assign>) returns (n: int)
    requires forall e :: e in sets ==> e.key.Int? ==> e.key.n <= 0x7fff_ffff
    ensures n == ArrayLength(sets)
  {
    var max, items := 0, 0;
    while items < |sets|
      invariant items <= |sets|
      invariant IndexKeys(sets[..items]) && max == MaxKey(sets[..items])
    {
      var key := sets[items].key;
      assert sets[items] in sets;
      if !key.Int? || key.n < 1 {
        return -1;
      }
      assert sets[..items + 1][..items] == sets[..items];
      max := if key.n > max then key.n else max;
      items := items + 1;
    }
    assert sets[..items] == sets;
    return max;
  }

  method AppendNumber(json: StrBuf, fmt: Formatter, v: Lua) returns (o: Outcome)
    requires json.Valid() && Formats(fmt)
    modifies json, json.buf
    ensures json.Valid() && (json.buf == old(json.buf) || fresh(json.buf))
    ensures Follows(old(json.Contents()), json.Contents(), o, PrintNumber(fmt, v))
  {
    if NotFiniteNumber(v) {
      return Raised(NotFinite);
    }
    json.EnsureEmptyLength(NUMBER_SIZE);
    json.AppendMemUnsafe(fmt(v));
    return Done;
  }

  /** The element under a key found at position `p`; a missing one prints as null. */
  method AppendElement(json: StrBuf, fmt: Formatter, t: Lua, p: nat, depth: nat) returns (o: Outcome)
    requires json.Valid() && Formats(fmt) && t.Table? && CIntKeys(t)
    modifies json, json.buf
    ensures json.Valid() && (json.buf == old(json.buf) || fresh(json.buf))
    ensures Follows(old(json.Contents()), json.Contents(), o, PrintElement(fmt, t, p, depth))
    decreases t, 0
  {
    if p < |t.sets| {
      assert t.sets[p] in t.sets;
      o := AppendData(json, fmt, t.sets[p].val, depth);
    } else {
      json.AppendMem(NULL);
      o := Done;
    }
  }

  method AppendArray(json: StrBuf, fmt: Formatter, t: Lua, len: nat, depth: nat) returns (o: Outcome)
    requires json.Valid() && Formats(fmt) && t.Table? && CIntKeys(t)
    modifies json, json.buf
    ensures json.Valid() && (json.buf == old(json.buf) || fresh(json.buf))
    ensures Follows(old(json.Contents()), json.Contents(), o,
                    Then(Text([91]), PrintElements(fmt, t, KeyOrder(t.sets, len), 0, depth)))
    decreases t, 1
  {
    hide PrintElement, Then, KeyOrder, CIntKeys;
    ghost var order := KeyOrder(t.sets, len);
    ghost var was, done := json.Contents(), Text([91]);
    json.AppendChar(91);
    var i := 1;
    ghost var all := Then(Text([91]), PrintElements(fmt, t, order, 0, depth));
    while i <= len
      invariant 1 <= i <= len + 1
      invariant json.Valid() && (json.buf == old(json.buf) || fresh(json.buf))
      invariant Follows(was, json.Contents(), Done, done)
      invariant all == Then(done, PrintElements(fmt, t, order, i - 1, depth))
    {
      ghost var c, e := Text(Separator(i - 1)), PrintElement(fmt, t, order[i - 1], depth);
      ghost var rest := PrintElements(fmt, t, order, i, depth);
      ghost var here := json.Contents();
      if i > 1 {
        json.AppendChar(44);
      }
      ghost var there := json.Contents();
      assert Follows(here, there, Done, c);
      var p := IndexOf(t.sets, Int(i));
      assert order[i - 1] == p;
      o := AppendElement(json, fmt, t, p, depth);
      FollowsThen(here, there, json.Contents(), c, e, o);
      FollowsThen(was, here, json.Contents(), done, Then(c, e), o);
      ThenAssociates(done, Then(c, e), rest);
      done := Then(done, Then(c, e));
      if o.Raised? {
        FollowsStop(was, json.Contents(), done, rest, o.e);
        return;
      }
      i := i + 1;
    }
    ghost var here := json.Contents();
    json.AppendChar(93);
    o := Done;
    FollowsThen(was, here, json.Contents(), done, Text([93]), Done);
  }

  method AppendKey(json: StrBuf, fmt: Formatter, k: Lua) returns (o: Outcome)
    requires json.Valid() && Formats(fmt)
    modifies json, json.buf
    ensures json.Valid() && (json.buf == old(json.buf) || fresh(json.buf))
    ensures Follows(old(json.Contents()), json.Contents(), o, PrintKey(fmt, k))
  {
    hide Quoted, Then;
    ghost var was := json.Contents();
    if k.Int? || k.Double? {
      json.AppendChar(QUOTE);
      ghost var here := json.Contents();
      o := AppendNumber(json, fmt, k);
      ghost var number := PrintNumber(fmt, k);
      FollowsThen(was, here, json.Contents(), Text([QUOTE]), number, o);
      if o.Raised? {
        FollowsStop(was, json.Contents(), Then(Text([QUOTE]), number), Text([QUOTE, 58]), o.e);
        return;
      }
      here := json.Contents();
      json.AppendMem([QUOTE, 58]);
      FollowsThen(was, here, json.Contents(), Then(Text([QUOTE]), number), Text([QUOTE, 58]), Done);
    } else if k.Str? {
      AppendQuoted(json, k.s);
      json.AppendChar(58);
      Associative(was, Quoted(k.s), [58]);
      o := Done;
    } else {
      o := Raised(BadKey);
    }
  }

  method AppendMember(json: StrBuf, fmt: Formatter, t: Lua, i: nat, depth: nat) returns (o: Outcome)
    requires json.Valid() && Formats(fmt) && t.Table? && CIntKeys(t) && i < |t.sets|
    modifies json, json.buf
    ensures json.Valid() && (json.buf == old(json.buf) || fresh(json.buf))
    ensures Follows(old(json.Contents()), json.Contents(), o, PrintMember(fmt, t, i, depth))
    decreases t, 0
  {
    assert t.sets[i] in t.sets;
    hide Print, PrintKey, Then;
    ghost var was, k, v := json.Contents(), PrintKey(fmt, t.sets[i].key), Print(fmt, t.sets[i].val, depth);
    o := AppendKey(json, fmt, t.sets[i].key);
    ghost var here := json.Contents();
    if o.Raised? {
      FollowsStop(was, here, k, v, o.e);
      return;
    }
    o := AppendData(json, fmt, t.sets[i].val, depth);
    FollowsThen(was, here, json.Contents(), k, v, o);
  }

  method AppendObject(json: StrBuf, fmt: Formatter, t: Lua, depth: nat) returns (o: Outcome)
    requires json.Valid() && Formats(fmt) && t.Table? && CIntKeys(t)
    modifies json, json.buf
    ensures json.Valid() && (json.buf == old(json.buf) || fresh(json.buf))
    ensures Follows(old(json.Contents()), json.Contents(), o, Then(Text([123]), PrintMembers(fmt, t, 0, depth)))
    decreases t, 1
  {
    hide PrintMember, Then, CIntKeys;
    ghost var was, done := json.Contents(), Text([123]);
    json.AppendChar(123);
    var i := 0;
    ghost var all := Then(Text([123]), PrintMembers(fmt, t, 0, depth));
    while i < |t.sets|
      invariant i <= |t.sets|
      invariant json.Valid() && (json.buf == old(json.buf) || fresh(json.buf))
      invariant Follows(was, json.Contents(), Done, done)
      invariant all == Then(done, PrintMembers(fmt, t, i, depth))
    {
      ghost var c, e, rest := Text(Separator(i)), PrintMember(fmt, t, i, depth), PrintMembers(fmt, t, i + 1, depth);
      ghost var here := json.Contents();
      if i > 0 {
        json.AppendChar(44);
      }
      ghost var there := json.Contents();
      assert Follows(here, there, Done, c);
      o := AppendMember(json, fmt, t, i, depth);
      FollowsThen(here, there, json.Contents(), c, e, o);
      FollowsThen(was, here, json.Contents(), done, Then(c, e), o);
      ThenAssociates(done, Then(c, e), rest);
      done := Then(done, Then(c, e));
      if o.Raised? {
        FollowsStop(was, json.Contents(), done, rest, o.e);
        return;
      }
      i := i + 1;
    }
    ghost var here := json.Contents();
    json.AppendChar(125);
    o := Done;
    FollowsThen(was, here, json.Contents(), done, Text([125]), Done);
  }

  method AppendData(json: StrBuf, fmt: Formatter, v: Lua, depth: nat) returns (o: Outcome)
    requires json.Valid() && Formats(fmt) && CIntKeys(v)
    modifies json, json.buf
    ensures json.Valid() && (json.buf == old(json.buf) || fresh(json.buf))
    ensures Follows(old(json.Contents()), json.Contents(), o, Print(fmt, v, depth))
    decreases v, 2
  {
    hide Then, PrintElements, PrintMembers, Quoted;
    o := Done;
    match v
    case Str(s) => AppendQuoted(json, s);
    case Int(_) => o := AppendNumber(json, fmt, v);
    case Double(_) => o := AppendNumber(json, fmt, v);
    case Bool(b) => json.AppendMem(if b then TRUE else FALSE);
    case Table(sets) =>
      var current := depth + 1;
      if current > MAX_DEPTH {
        return Raised(TooDeep);
      }
      var len := MeasureArray(sets);
      if len > |sets| * SPARSE_RATIO && len > SPARSE_SAFE {
        return Raised(TooSparse);
      }
      if len > 0 {
        o := AppendArray(json, fmt, v, len, current);
      } else {
        o := AppendObject(json, fmt, v, current);
      }
    case _ => json.AppendMem(NULL);
  }

  /** Prints into a buffer that is kept from one call to the next. */
  method Encode(json: StrBuf, fmt: Formatter, v: Lua) returns (p: Printed)
    requires json.Valid() && Formats(fmt) && CIntKeys(v)
    modifies json, json.buf
    ensures json.Valid() && (json.buf == old(json.buf) || fresh(json.buf))
    ensures p == Print(fmt, v, 0)
  {
    hide Print;
    json.Reset();
    var o := AppendData(json, fmt, v, 0);
    if o.Raised? {
      return Refused(o.e);
    }
    assert json.Contents() == [] + Print(fmt, v, 0).s == Print(fmt, v, 0).s;
    return Text(json.buf[..json.length]);
  }
}
