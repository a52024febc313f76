/** The Lua values the codecs read and build. The Lua stack is replaced by these values. */
module LuaValues {
  import opened Bytes

  /** A table is written down as a list of assignments. For a table that an encoder walks, these are its
      live entries in the order lua_next visits them. For a table that a decoder builds, they are the
      assignments in the order they were made. Null is the NULL light userdata that stands for JSON null;
      a Double is a non-integer number, kept as its IEEE 754 bytes (4 when a float holds it exactly). */
  datatype Lua =
    | Nil
    | Null
    | Bool(b: bool)
    | Int(n: int)
    | Double(ieee: bytes)
    | Str(s: bytes)
    | Table(sets: seq<Assign>)

  datatype Assign = Assign(key: Lua, val: Lua)

  /** What a Lua value is, whatever the history of its tables: a table is a finite map. */
  datatype Value =
    | VNil
    | VNull
    | VBool(b: bool)
    | VInt(n: int)
    | VDouble(ieee: bytes)
    | VStr(s: bytes)
    | VTable(m: map<Value, Value>)

  function Meaning(v: Lua): Value
    decreases v
  {
    match v
    case Nil => VNil
    case Null => VNull
    case Bool(b) => VBool(b)
    case Int(n) => VInt(n)
    case Double(w) => VDouble(w)
    case Str(s) => VStr(s)
    case Table(sets) => VTable(Contents(v, |sets|))
  }

  /** The table after its first `k` assignments. Assigning nil removes the key. */
  function Contents(t: Lua, k: nat): map<Value, Value>
    requires t.Table? && k <= |t.sets|
    decreases t, k
  {
    if k == 0 then map[] else
      var m := Contents(t, k - 1);
      var key, val := Meaning(t.sets[k - 1].key), Meaning(t.sets[k - 1].val);
      if val == VNil then m - {key} else m[key := val]
  }

  predicate Scalar(v: Lua) {
    !v.Nil? && !v.Null? && !v.Table?
  }

  /** An exponent of all ones with a non-zero mantissa. */
  predicate NotANumber(v: Lua) {
    v.Double? &&
    if |v.ieee| == 4 then
      v.ieee[0] % 128 == 127 && v.ieee[1] >= 128 && Unsigned(v.ieee[1..]) != 0x80_0000
    else
      |v.ieee| == 8 && v.ieee[0] % 128 == 127 && v.ieee[1] >= 240
      && Unsigned(v.ieee[1..]) != 0xF0_0000_0000_0000
  }

  predicate DistinctKeys(sets: seq<Assign>) {
    forall i, j :: 0 <= i < j < |sets| ==> sets[i].key != sets[j].key
  }

  /** Scalar keys, each assigned once. */
  predicate Keyed(t: Lua) {
    t.Table? && DistinctKeys(t.sets) && forall e :: e in t.sets ==> Scalar(e.key)
  }

  /** A value as the Lua runtime holds it: scalar keys, each once, and no nil stored. Integers are 64-bit. */
  predicate WellFormed(v: Lua) {
    match v
    case Nil => true
    case Null => true
    case Bool(_) => true
    case Int(n) => -0x8000_0000_0000_0000 <= n < 0x8000_0000_0000_0000
    case Double(w) => |w| == 4 || |w| == 8
    case Str(_) => true
    case Table(sets) =>
      && DistinctKeys(sets)
      && forall e :: e in sets ==>
        Scalar(e.key) && !NotANumber(e.key) && WellFormed(e.key) && WellFormed(e.val) && e.val != Nil
  }

  /** The same, where NULL may be a key too. */
  predicate Storable(v: Lua) {
    match v
    case Table(sets) =>
      && DistinctKeys(sets)
      && forall e :: e in sets ==>
        (e.key == Null || (Scalar(e.key) && !NotANumber(e.key) && WellFormed(e.key))) && Storable(e.val) && e.val != Nil
    case _ => WellFormed(v)
  }

  lemma {:induction false} WellFormedIsStorable(v: Lua)
    requires WellFormed(v)
    ensures Storable(v)
  {
    if v.Table? {
      forall e | e in v.sets ensures Storable(e.val) {
        WellFormedIsStorable(e.val);
      }
    }
  }

  lemma MeaningScalarInjective(a: Lua, b: Lua)
    requires Scalar(a) && Scalar(b)
    requires Meaning(a) == Meaning(b)
    ensures a == b
  {
  }

  lemma MeaningNil(v: Lua)
    ensures Meaning(v) == VNil <==> v == Nil
  {
  }

  /** With distinct scalar keys, a table holds the pairs that were assigned, unless the value was nil. */
  lemma {:induction false} ContentsHas(t: Lua, k: nat, i: nat)
    requires Keyed(t) && i < k <= |t.sets| && t.sets[i].val != Nil
    ensures Meaning(t.sets[i].key) in Contents(t, k)
    ensures Contents(t, k)[Meaning(t.sets[i].key)] == Meaning(t.sets[i].val)
    decreases k
  {
    MeaningNil(t.sets[i].val);
    if i < k - 1 {
      ContentsHas(t, k - 1, i);
      var a, b := t.sets[i].key, t.sets[k - 1].key;
      assert t.sets[i] in t.sets && t.sets[k - 1] in t.sets;
      if Meaning(a) == Meaning(b) {
        MeaningScalarInjective(a, b);
      }
    }
  }

  /** Nothing else is in the table. */
  lemma {:induction false} ContentsComesFrom(t: Lua, k: nat, x: Value) returns (i: nat)
    requires Keyed(t) && k <= |t.sets| && x in Contents(t, k)
    ensures i < k && t.sets[i].val != Nil && t.sets[i] in t.sets
    ensures Meaning(t.sets[i].key) == x && Contents(t, k)[x] == Meaning(t.sets[i].val)
    decreases k
  {
    MeaningNil(t.sets[k - 1].val);
    if Meaning(t.sets[k - 1].key) == x {
      i := k - 1;
    } else {
      i := ContentsComesFrom(t, k - 1, x);
    }
  }
}
