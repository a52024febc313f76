/** The rehashing hash table of hashtable.c. A bucket's chain of entries is a sequence, head first. */
module HashTable {
  import opened Options

  const PRIMES: seq<nat> := [
    53, 97, 193, 389,
    769, 1543, 3079, 6151,
    12289, 24593, 49157, 98317,
    196613, 393241, 786433, 1572869,
    3145739, 6291469, 12582917, 25165843,
    50331653, 100663319, 201326611, 402653189,
    805306457, 1610612741
  ]

  datatype Entry<K, V> = Entry(h: nat, k: K, v: V)

  /** The protection against poor hash functions, on 32-bit words. */
  function Mix(hash: bv32): bv32 {
    var a := hash + !(hash << 9);
    var b := a ^ ((a >> 14) | (a << 18));
    var c := b + (b << 4);
    c ^ ((c >> 10) | (c << 22))
  }

  /** 65 percent of the size, rounded up. */
  function LoadLimit(size: nat): nat {
    (13 * size + 19) / 20
  }

  // ---------------------------------------------------------------- all entries of a table

  ghost function Entries<K, V>(t: seq<seq<Entry<K, V>>>): multiset<Entry<K, V>> {
    if t == [] then multiset{} else multiset(t[0]) + Entries(t[1..])
  }

  /** Replacing one chain replaces its entries. */
  lemma {:induction false} EntriesUpdate<K, V>(t: seq<seq<Entry<K, V>>>, b: nat, chain: seq<Entry<K, V>>)
    requires b < |t|
    ensures Entries(t[b := chain]) + multiset(t[b]) == Entries(t) + multiset(chain)
  {
    var u := t[b := chain];
    var c, d, head, rest := multiset(chain), multiset(t[b]), multiset(t[0]), Entries(t[1..]);
    if b == 0 {
      assert u[1..] == t[1..] && u[0] == chain;
      assert (c + rest) + d == (d + rest) + c;
    } else {
      EntriesUpdate(t[1..], b - 1, chain);
      assert u[1..] == t[1..][b - 1 := chain] && u[0] == t[0];
      assert (head + Entries(u[1..])) + d == head + (Entries(u[1..]) + d);
      assert (head + rest) + c == head + (rest + c);
    }
  }

  lemma {:induction false} EntryInBucket<K, V>(t: seq<seq<Entry<K, V>>>, e: Entry<K, V>)
    ensures e in Entries(t) <==> exists b :: 0 <= b < |t| && e in t[b]
  {
    if t != [] {
      EntryInBucket(t[1..], e);
      if e in Entries(t[1..]) {
        var b :| 0 <= b < |t[1..]| && e in t[1..][b];
        assert e in t[b + 1];
      }
      if b :| 0 <= b < |t| && e in t[b] {
        if b > 0 {
          assert e in t[1..][b - 1];
        }
      }
    }
  }

  lemma {:induction false} EmptyTable<K, V>(t: seq<seq<Entry<K, V>>>)
    requires forall b :: 0 <= b < |t| ==> t[b] == []
    ensures Entries(t) == multiset{}
  {
    if t != [] {
      EmptyTable(t[1..]);
    }
  }

  /** Every entry is in the bucket its hash selects. */
  ghost predicate Placed<K(!new), V(!new)>(t: seq<seq<Entry<K, V>>>) {
    forall b, e :: 0 <= b < |t| && e in t[b] ==> e.h % |t| == b
  }

  lemma PlacedUpdate<K(!new), V(!new)>(t: seq<seq<Entry<K, V>>>, b: nat, chain: seq<Entry<K, V>>)
    requires Placed(t) && b < |t|
    requires forall e :: e in chain ==> e.h % |t| == b
    ensures Placed(t[b := chain])
  {
  }

  lemma CancelCommon<T>(a: multiset<T>, b: multiset<T>, c: multiset<T>)
    requires a + c == b + c
    ensures a == b
  {
    assert (a + c) - c == a && (b + c) - c == b;
  }

  /** One entry more at the head of its chain. */
  lemma PushEntry<K(!new), V(!new)>(t: seq<seq<Entry<K, V>>>, e: Entry<K, V>)
    requires Placed(t) && |t| > 0
    ensures var b := e.h % |t|;
      && Placed(t[b := [e] + t[b]])
      && Entries(t[b := [e] + t[b]]) == Entries(t) + multiset{e}
  {
    var b := e.h % |t|;
    var chain := [e] + t[b];
    EntriesUpdate(t, b, chain);
    assert multiset(chain) == multiset{e} + multiset(t[b]);
    assert forall x :: x in chain ==> x == e || x in t[b];
    PlacedUpdate(t, b, chain);
    var more, d := Entries(t[b := chain]), multiset(t[b]);
    assert more + d == (Entries(t) + multiset{e}) + d;
    CancelCommon(more, Entries(t) + multiset{e}, d);
  }

  /** One entry less in its chain. */
  lemma DropEntry<K(!new), V(!new)>(t: seq<seq<Entry<K, V>>>, b: nat, i: nat)
    requires Placed(t) && b < |t| && i < |t[b]|
    ensures var u := t[b := t[b][..i] + t[b][i + 1..]];
      Placed(u) && Entries(t) == Entries(u) + multiset{t[b][i]}
  {
    var e, chain := t[b][i], t[b][..i] + t[b][i + 1..];
    assert t[b] == t[b][..i] + [e] + t[b][i + 1..];
    assert multiset(t[b]) == multiset(chain) + multiset{e};
    EntriesUpdate(t, b, chain);
    PlacedUpdate(t, b, chain);
    var less, c := Entries(t[b := chain]), multiset(chain);
    assert (less + multiset{e}) + c == less + (c + multiset{e});
    CancelCommon(Entries(t), less + multiset{e}, c);
  }

  // ---------------------------------------------------------------- the table

  class Hashtable<K(==,!new), V(!new)> {
    var table: array<seq<Entry<K, V>>>
    var entrycount: nat
    var loadlimit: nat
    var primeindex: nat
    const hashfn: K -> bv32
    ghost var m: map<K, V>

    function Hash(k: K): nat {
      Mix(hashfn(k)) as nat
    }

    /** The entries are the pairs of the map, each once, with their keys' hashes. */
    ghost predicate Holds(all: multiset<Entry<K, V>>, m: map<K, V>) {
      forall e :: all[e] == if e.k in m && m[e.k] == e.v && e.h == Hash(e.k) then 1 else 0
    }

    ghost predicate Valid()
      reads this, table
    {
      && primeindex < |PRIMES| && table.Length == PRIMES[primeindex]
      && loadlimit == LoadLimit(table.Length)
      && Placed(table[..])
      && Holds(Entries(table[..]), m)
      && entrycount == |m|
    }

    constructor (minsize: nat, hashfn: K -> bv32)
      requires minsize <= 0x4000_0000
      ensures Valid() && fresh(table) && m == map[] && this.hashfn == hashfn
      ensures table.Length > minsize && (primeindex > 0 ==> PRIMES[primeindex - 1] <= minsize)
    {
      hide Entries;
      var pindex := 0;
      while PRIMES[pindex] <= minsize
        invariant pindex < |PRIMES|
        invariant pindex > 0 ==> PRIMES[pindex - 1] <= minsize
        decreases |PRIMES| - pindex
      {
        pindex := pindex + 1;
      }
      var size := PRIMES[pindex];
      table := new seq<Entry<K, V>>[size](_ => []);
      primeindex, entrycount, loadlimit := pindex, 0, LoadLimit(size);
      this.hashfn := hashfn;
      m := map[];
      new;
      EmptyTable(table[..]);
    }

    /** A key of the map is found in the one bucket that is searched. */
    lemma KeyIsInItsBucket(k: K)
      requires Valid() && k in m
      ensures Entry(Hash(k), k, m[k]) in table[Hash(k) % table.Length]
    {
      EntryInBucket(table[..], Entry(Hash(k), k, m[k]));
    }

    /** An entry in any bucket is a pair of the map. */
    lemma BucketEntryIsInMap(b: nat, e: Entry<K, V>)
      requires Valid() && b < table.Length && e in table[b]
      ensures e.k in m && m[e.k] == e.v && e.h == Hash(e.k)
    {
      assert table[..][b] == table[b];
      EntryInBucket(table[..], e);
    }

    method Search(k: K) returns (r: Option<V>)
      requires Valid()
      ensures r == if k in m then Some(m[k]) else None
    {
      hide Placed, Holds, Entries, Hash;
      var hashvalue := Hash(k);
      var chain := table[hashvalue % table.Length];
      if k in m {
        KeyIsInItsBucket(k);
      }
      var i := 0;
      while i < |chain|
        invariant i <= |chain|
        invariant forall j :: 0 <= j < i ==> chain[j].h != hashvalue || chain[j].k != k
      {
        if hashvalue == chain[i].h && k == chain[i].k {
          BucketEntryIsInMap(hashvalue % table.Length, chain[i]);
          return Some(chain[i].v);
        }
        i := i + 1;
      }
      return None;
    }

    lemma HoldsMore(all: multiset<Entry<K, V>>, m: map<K, V>, k: K, v: V)
      requires Holds(all, m) && k !in m
      ensures Holds(all + multiset{Entry(Hash(k), k, v)}, m[k := v])
    {
    }

    lemma HoldsLess(all: multiset<Entry<K, V>>, m: map<K, V>, e: Entry<K, V>)
      requires Holds(all + multiset{e}, m)
      ensures Holds(all, m - {e.k})
    {
      assert (all + multiset{e})[e] == all[e] + 1;
      forall x
        ensures all[x] == if x.k in m - {e.k} && (m - {e.k})[x.k] == x.v && x.h == Hash(x.k) then 1 else 0
      {
        assert (all + multiset{e})[x] == all[x] + if x == e then 1 else 0;
      }
    }

    /** Puts a new entry at the head of its chain, in a table that may have to grow first. */
    method Insert(k: K, v: V)
      requires Valid() && k !in m
      modifies this, table
      ensures Valid() && (table == old(table) || fresh(table))
      ensures m == old(m)[k := v]
      ensures |m| > old(loadlimit) && old(primeindex) + 1 < |PRIMES| ==> primeindex == old(primeindex) + 1
    {
      hide Placed, Holds, Entries;
      if entrycount + 1 > loadlimit {
        Expand();
      }
      entrycount := entrycount + 1;
      var e := Entry(Hash(k), k, v);
      var index := e.h % table.Length;
      ghost var t := table[..];
      PushEntry(t, e);
      HoldsMore(Entries(t), m, k, v);
      table[index] := [e] + table[index];
      assert table[..] == t[index := [e] + t[index]];
      m := m[k := v];
    }

    /** Removes the entry of a key and returns its value. */
    method Remove(k: K) returns (r: Option<V>)
      requires Valid()
      modifies this`entrycount, this`m, table
      ensures Valid()
      ensures r == if k in old(m) then Some(old(m)[k]) else None
      ensures m == old(m) - {k}
    {
      hide Placed, Holds, Entries;
      var hashvalue := Hash(k);
      var index := hashvalue % table.Length;
      var chain := table[index];
      if k in m {
        KeyIsInItsBucket(k);
      }
      var i := 0;
      while i < |chain|
        invariant i <= |chain|
        invariant forall j :: 0 <= j < i ==> chain[j].h != hashvalue || chain[j].k != k
      {
        if hashvalue == chain[i].h && k == chain[i].k {
          r := Some(chain[i].v);
          BucketEntryIsInMap(index, chain[i]);
          ghost var t := table[..];
          DropEntry(t, index, i);
          table[index] := chain[..i] + chain[i + 1..];
          assert table[..] == t[index := t[index][..i] + t[index][i + 1..]];
          HoldsLess(Entries(table[..]), m, chain[i]);
          entrycount := entrycount - 1;
          m := m - {k};
          return;
        }
        i := i + 1;
      }
      return None;
    }

    /** Moves every entry to the bucket it has in a table of the next size. At the largest size nothing
        changes. No entry is lost, and the map stays the same. */
    method Expand()
      requires Valid()
      modifies this`table, this`loadlimit, this`primeindex, table
      ensures Valid() && (table == old(table) || fresh(table))
      ensures Entries(table[..]) == old(Entries(table[..]))
      ensures primeindex == if old(primeindex) == |PRIMES| - 1 then old(primeindex) else old(primeindex) + 1
    {
      hide Holds, Entries;
      if primeindex == |PRIMES| - 1 {
        return;
      }
      var newsize := PRIMES[primeindex + 1];
      var newtable := new seq<Entry<K, V>>[newsize](_ => []);
      ghost var all := Entries(table[..]);
      EmptyTable(newtable[..]);
      hide Placed;
      Transfer(newtable);
      EmptyTable(table[..]);
      assert multiset{} + Entries(newtable[..]) == Entries(newtable[..]) && all + multiset{} == all;
      table := newtable;
      primeindex := primeindex + 1;
      loadlimit := LoadLimit(newsize);
    }

    /** Empties the old chains into the new table. */
    method Transfer(newtable: array<seq<Entry<K, V>>>)
      requires newtable != table && newtable.Length > 0 && Placed(newtable[..]) && Placed(table[..])
      modifies table, newtable
      ensures Placed(newtable[..])
      ensures forall b :: 0 <= b < table.Length ==> table[b] == []
      ensures Entries(table[..]) + Entries(newtable[..]) == old(Entries(table[..]) + Entries(newtable[..]))
    {
      hide Placed, Entries;
      var i := 0;
      while i < table.Length
        invariant i <= table.Length
        invariant forall b :: 0 <= b < i ==> table[b] == []
        invariant Placed(newtable[..]) && Placed(table[..])
        invariant Entries(table[..]) + Entries(newtable[..]) == old(Entries(table[..]) + Entries(newtable[..]))
      {
        while table[i] != []
          invariant forall b :: 0 <= b < i ==> table[b] == []
          invariant Placed(newtable[..]) && Placed(table[..])
          invariant Entries(table[..]) + Entries(newtable[..]) == old(Entries(table[..]) + Entries(newtable[..]))
          decreases |table[i]|
        {
          MoveHead(newtable, i);
        }
        i := i + 1;
      }
    }

    /** Takes the head of an old chain and puts it at the head of its new chain. */
    method MoveHead(newtable: array<seq<Entry<K, V>>>, i: nat)
      requires newtable != table && newtable.Length > 0 && i < table.Length && table[i] != []
      requires Placed(newtable[..]) && Placed(table[..])
      modifies table, newtable
      ensures Placed(newtable[..]) && Placed(table[..])
      ensures table[i] == old(table[i])[1..]
      ensures forall b :: 0 <= b < table.Length && b != i ==> table[b] == old(table[b])
      ensures Entries(table[..]) + Entries(newtable[..]) == old(Entries(table[..]) + Entries(newtable[..]))
    {
      hide Placed, Entries;
      var e := table[i][0];
      var index := e.h % newtable.Length;
      ghost var t, u := table[..], newtable[..];
      DropEntry(t, i, 0);
      PushEntry(u, e);
      table[i] := table[i][1..];
      newtable[index] := [e] + newtable[index];
      assert t[i][..0] + t[i][1..] == table[i];
      assert table[..] == t[i := t[i][..0] + t[i][1..]] && newtable[..] == u[index := [e] + u[index]];
    }
  }

  // ---------------------------------------------------------------- whole runs

  datatype Op<K, V> = Put(k: K, v: V) | Get(k: K) | Drop(k: K)

  /** New keys only are put. */
  ghost predicate Allowed<K, V>(ops: seq<Op<K, V>>, m: map<K, V>) {
    ops == [] ||
    match ops[0]
    case Put(k, v) => k !in m && Allowed(ops[1..], m[k := v])
    case Get(_) => Allowed(ops[1..], m)
    case Drop(k) => Allowed(ops[1..], m - {k})
  }

  /** What the searches and removals answer when the table is a finite map. */
  ghost function Answers<K, V>(ops: seq<Op<K, V>>, m: map<K, V>): seq<Option<V>> {
    if ops == [] then [] else
      match ops[0]
      case Put(k, v) => Answers(ops[1..], m[k := v])
      case Get(k) => [if k in m then Some(m[k]) else None] + Answers(ops[1..], m)
      case Drop(k) => [if k in m then Some(m[k]) else None] + Answers(ops[1..], m - {k})
  }

  /** The answer to one operation, and the map after it. */
  ghost function AnswerTo<K, V>(op: Op<K, V>, m: map<K, V>): seq<Option<V>> {
    match op
    case Put(_, _) => []
    case Get(k) => [if k in m then Some(m[k]) else None]
    case Drop(k) => [if k in m then Some(m[k]) else None]
  }

  ghost function After<K, V>(op: Op<K, V>, m: map<K, V>): map<K, V> {
    match op
    case Put(k, v) => m[k := v]
    case Get(_) => m
    case Drop(k) => m - {k}
  }

  lemma AnswersStep<K, V>(ops: seq<Op<K, V>>, i: nat, m: map<K, V>, sofar: seq<Option<V>>)
    requires i < |ops|
    ensures sofar + Answers(ops[i..], m) == sofar + AnswerTo(ops[i], m) + Answers(ops[i + 1..], After(ops[i], m))
    ensures Allowed(ops[i..], m) ==>
      Allowed(ops[i + 1..], After(ops[i], m)) && (ops[i].Put? ==> ops[i].k !in m)
  {
    assert ops[i..][1..] == ops[i + 1..];
    var rest := Answers(ops[i + 1..], After(ops[i], m));
    assert Answers(ops[i..], m) == AnswerTo(ops[i], m) + rest;
  }

  /** Over any run from an empty table, the answers are those of a finite map. */
  method Run<K(==,!new), V(!new)>(ops: seq<Op<K, V>>, minsize: nat, hashfn: K -> bv32) returns (answers: seq<Option<V>>)
    requires minsize <= 0x4000_0000 && Allowed(ops, map[])
    ensures answers == Answers(ops, map[])
  {
    var h := new Hashtable<K, V>(minsize, hashfn);
    answers := [];
    assert ops[0..] == ops;
    var i := 0;
    while i < |ops|
      invariant i <= |ops| && h.Valid() && fresh(h) && fresh(h.table)
      invariant Allowed(ops[i..], h.m)
      invariant answers + Answers(ops[i..], h.m) == Answers(ops, map[])
    {
      hide Answers, Allowed, AnswerTo, After;
      AnswersStep(ops, i, h.m, answers);
      var r := Apply(h, ops[i]);
      answers := answers + r;
      i := i + 1;
    }
  }

  method Apply<K(==,!new), V(!new)>(h: Hashtable<K, V>, op: Op<K, V>) returns (answer: seq<Option<V>>)
    requires h.Valid() && (op.Put? ==> op.k !in h.m)
    modifies h, h.table
    ensures h.Valid() && (h.table == old(h.table) || fresh(h.table))
    ensures answer == AnswerTo(op, old(h.m)) && h.m == After(op, old(h.m))
  {
    match op {
      case Put(k, v) =>
        h.Insert(k, v);
        answer := [];
      case Get(k) =>
        var r := h.Search(k);
        answer := [r];
      case Drop(k) =>
        var r := h.Remove(k);
        answer := [r];
    }
  }

  /** 65 percent of the size, and not one more than is needed for that. */
  lemma LoadLimitIs(size: nat)
    ensures 100 * LoadLimit(size) >= 65 * size && 100 * (LoadLimit(size) - 1) < 65 * size
  {
  }

  /** Each size is more than the one before it, and less than three times that. */
  lemma SizesGrow(i: nat)
    requires i + 1 < |PRIMES|
    ensures PRIMES[i] < PRIMES[i + 1] < 3 * PRIMES[i]
  {
  }
}
