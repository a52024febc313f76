/** Lua tables used as arrays: integer keys, looking a key up, and the test both codecs make for an array. */
module LuaTables {
  import opened LuaValues

  /** The keys are integers that a positive C int holds. */
  predicate IndexKeys(sets: seq<Assign>) {
    forall e :: e in sets ==> e.key.Int? && 0 < e.key.n <= 0x7fff_ffff
  }

  function MaxKey(sets: seq<Assign>): nat
    requires IndexKeys(sets)
  {
    if sets == [] then 0 else
      var n, m := sets[|sets| - 1].key.n, MaxKey(sets[..|sets| - 1]);
      if n > m then n else m
  }

  /** The test of table_is_an_array: all keys are positive and the largest equals their number. */
  predicate IsArray(sets: seq<Assign>) {
    IndexKeys(sets) && MaxKey(sets) == |sets|
  }

  /** The position of a key, or the number of entries when it is absent. */
  function IndexOf(sets: seq<Assign>, k: Lua): (i: nat)
    ensures i <= |sets|
    ensures i < |sets| ==> sets[i].key == k
  {
    if sets == [] then 0
    else if sets[0].key == k then 0
    else 1 + IndexOf(sets[1..], k)
  }

  lemma {:induction false} IndexOfFinds(sets: seq<Assign>, e: Assign)
    requires e in sets
    ensures IndexOf(sets, e.key) < |sets|
  {
    if sets[0].key != e.key {
      IndexOfFinds(sets[1..], e);
    }
  }

  /** Where the elements 1, 2, ..., n are among the entries. */
  function KeyOrder(sets: seq<Assign>, n: nat): (order: seq<nat>)
    ensures |order| == n
    ensures forall j :: 0 <= j < n ==> order[j] == IndexOf(sets, Int(j + 1))
  {
    seq(n, j => IndexOf(sets, Int(j + 1)))
  }

  // ---------------------------------------------------------------- the array test

  function Upto(n: nat): (s: set<int>)
    ensures |s| == n
    ensures forall j :: j in s <==> 1 <= j <= n
  {
    if n == 0 then {} else Upto(n - 1) + {n}
  }

  lemma {:induction false} MaxKeyIsLargest(sets: seq<Assign>)
    requires IndexKeys(sets)
    ensures forall e :: e in sets ==> e.key.n <= MaxKey(sets)
    ensures sets != [] ==> exists e :: e in sets && e.key.n == MaxKey(sets)
  {
    if sets != [] {
      var init, last := sets[..|sets| - 1], sets[|sets| - 1];
      MaxKeyIsLargest(init);
      assert forall e :: e in sets <==> e in init || e == last;
    }
  }

  /** The keys of distinct integer entries, as a set of the same size. */
  lemma {:induction false} KeyNumbers(sets: seq<Assign>) returns (ks: set<int>)
    requires DistinctKeys(sets) && IndexKeys(sets)
    ensures |ks| == |sets|
    ensures forall j :: j in ks <==> exists e :: e in sets && e.key.n == j
  {
    if sets == [] {
      ks := {};
    } else {
      var init, last := sets[..|sets| - 1], sets[|sets| - 1];
      assert forall e :: e in sets <==> e in init || e == last;
      var ks0 := KeyNumbers(init);
      assert last.key.n !in ks0;
      ks := ks0 + {last.key.n};
      forall j
        ensures j in ks <==> exists e :: e in sets && e.key.n == j
      {
        if exists e :: e in sets && e.key.n == j {
          var e :| e in sets && e.key.n == j;
        }
        if j in ks0 {
          var e :| e in init && e.key.n == j;
          assert e in sets;
        }
      }
    }
  }

  lemma SubsetOfEqualSize(a: set<int>, b: set<int>)
    requires a <= b && |a| == |b|
    ensures a == b
  {
    assert |b - a| == |b| - |a|;
  }

  ghost predicate HasKey(sets: seq<Assign>, k: Lua) {
    exists e :: e in sets && e.key == k
  }

  lemma ArrayKeyInRange(sets: seq<Assign>, e: Assign)
    requires IsArray(sets) && e in sets
    ensures e.key.Int? && 1 <= e.key.n <= |sets| <= 0x7fff_ffff
  {
    MaxKeyIsLargest(sets);
  }

  lemma ArrayHasEveryKey(sets: seq<Assign>, j: nat)
    requires DistinctKeys(sets) && IsArray(sets) && 1 <= j <= |sets|
    ensures HasKey(sets, Int(j))
  {
    var ks := KeyNumbers(sets);
    MaxKeyIsLargest(sets);
    assert ks <= Upto(|sets|);
    SubsetOfEqualSize(ks, Upto(|sets|));
    assert j in ks;
    var e :| e in sets && e.key.n == j;
    assert e.key == Int(j);
  }

  lemma KeysUptoIsArray(sets: seq<Assign>)
    requires |sets| <= 0x7fff_ffff
    requires forall e :: e in sets ==> e.key.Int? && 1 <= e.key.n <= |sets|
    requires sets != [] ==> HasKey(sets, Int(|sets|))
    ensures IsArray(sets)
  {
    MaxKeyIsLargest(sets);
  }

  /** A table is written as an array exactly when its keys are 1..N, with N a positive C int or zero. */
  lemma ArrayTestIsPigeonhole(sets: seq<Assign>)
    requires DistinctKeys(sets)
    ensures IsArray(sets) <==>
      |sets| <= 0x7fff_ffff && forall k :: HasKey(sets, k) <==> k.Int? && 1 <= k.n <= |sets|
  {
    if IsArray(sets) {
      forall k
        ensures HasKey(sets, k) <==> k.Int? && 1 <= k.n <= |sets|
      {
        if HasKey(sets, k) {
          var e :| e in sets && e.key == k;
          ArrayKeyInRange(sets, e);
        }
        if k.Int? && 1 <= k.n <= |sets| {
          ArrayHasEveryKey(sets, k.n);
        }
      }
      if sets != [] {
        ArrayKeyInRange(sets, sets[0]);
      }
    }
    if |sets| <= 0x7fff_ffff && forall k :: HasKey(sets, k) <==> k.Int? && 1 <= k.n <= |sets| {
      forall e | e in sets
        ensures e.key.Int? && 1 <= e.key.n <= |sets|
      {
        assert HasKey(sets, e.key);
      }
      KeysUptoIsArray(sets);
    }
  }

  /** In an array the k-th element is there, and only one entry has its key. */
  lemma KeyOrderFinds(sets: seq<Assign>, k: nat)
    requires DistinctKeys(sets) && IsArray(sets) && k < |sets|
    ensures KeyOrder(sets, |sets|)[k] < |sets| && sets[KeyOrder(sets, |sets|)[k]].key == Int(k + 1)
  {
    ArrayHasEveryKey(sets, k + 1);
    var e :| e in sets && e.key == Int(k + 1);
    IndexOfFinds(sets, e);
  }

  lemma AllKeysMakeArray(sets: seq<Assign>)
    requires DistinctKeys(sets) && IndexKeys(sets)
    requires forall j :: 1 <= j <= MaxKey(sets) ==> IndexOf(sets, Int(j)) < |sets|
    ensures IsArray(sets)
  {
    var ks := KeyNumbers(sets);
    var n := MaxKey(sets);
    MaxKeyIsLargest(sets);
    forall j | 1 <= j <= n
      ensures j in ks
    {
      var e := sets[IndexOf(sets, Int(j))];
      assert e in sets && e.key.n == j;
    }
    assert ks == Upto(n);
  }

  /** A table of positive integer keys that is not an array lacks a key below its largest. */
  lemma MissingKey(sets: seq<Assign>) returns (j: nat)
    requires DistinctKeys(sets) && IndexKeys(sets) && !IsArray(sets)
    ensures 1 <= j <= MaxKey(sets) && IndexOf(sets, Int(j)) == |sets|
  {
    if forall j :: 1 <= j <= MaxKey(sets) ==> IndexOf(sets, Int(j)) < |sets| {
      AllKeysMakeArray(sets);
    }
    j :| 1 <= j <= MaxKey(sets) && IndexOf(sets, Int(j)) == |sets|;
  }

  // ---------------------------------------------------------------- tables with converted values

  /** Every entry of `t` reappears in `u` with its value converted, and nothing else does. */
  ghost predicate Reassigned(t: Lua, u: Lua, f: Lua -> Lua)
    requires t.Table? && u.Table?
  {
    && DistinctKeys(u.sets)
    && (forall e :: e in t.sets ==> Assign(e.key, f(e.val)) in u.sets)
    && (forall d :: d in u.sets ==> exists e :: e in t.sets && d == Assign(e.key, f(e.val)))
  }

  lemma ReassignedKeyed(t: Lua, u: Lua, f: Lua -> Lua)
    requires Keyed(t) && u.Table? && Reassigned(t, u, f)
    ensures Keyed(u)
  {
  }

  lemma ReassignedHas(t: Lua, u: Lua, f: Lua -> Lua, e: Assign)
    requires Keyed(t) && u.Table? && Reassigned(t, u, f) && e in t.sets && e.val != Nil && f(e.val) != Nil
    ensures var x := Meaning(e.key);
      && x in Contents(t, |t.sets|) && Contents(t, |t.sets|)[x] == Meaning(e.val)
      && x in Contents(u, |u.sets|) && Contents(u, |u.sets|)[x] == Meaning(f(e.val))
  {
    hide Meaning, Contents;
    ReassignedKeyed(t, u, f);
    var i :| 0 <= i < |t.sets| && t.sets[i] == e;
    ContentsHas(t, |t.sets|, i);
    var d := Assign(e.key, f(e.val));
    var j :| 0 <= j < |u.sets| && u.sets[j] == d;
    ContentsHas(u, |u.sets|, j);
  }

  lemma ReassignedComesFrom(t: Lua, u: Lua, f: Lua -> Lua, x: Value) returns (e: Assign)
    requires Keyed(t) && u.Table? && Reassigned(t, u, f) && x in Contents(u, |u.sets|)
    ensures e in t.sets && Meaning(e.key) == x && f(e.val) != Nil
  {
    hide Meaning, Contents;
    ReassignedKeyed(t, u, f);
    var j := ContentsComesFrom(u, |u.sets|, x);
    e :| e in t.sets && u.sets[j] == Assign(e.key, f(e.val));
  }

  /** The table means the same exactly when every converted value does. */
  lemma MeaningOfReassigned(t: Lua, u: Lua, f: Lua -> Lua)
    requires Keyed(t) && u.Table? && Reassigned(t, u, f)
    requires forall e :: e in t.sets ==> e.val != Nil && f(e.val) != Nil
    ensures Meaning(u) == Meaning(t) <==> forall e :: e in t.sets ==> Meaning(f(e.val)) == Meaning(e.val)
  {
    var mt, mu := Contents(t, |t.sets|), Contents(u, |u.sets|);
    assert Meaning(t) == VTable(mt) && Meaning(u) == VTable(mu);
    MeaningOfReassignedMaps(t, u, f, mt, mu);
  }

  lemma MeaningOfReassignedMaps(t: Lua, u: Lua, f: Lua -> Lua, mt: map<Value, Value>, mu: map<Value, Value>)
    requires t.Table? && Keyed(t) && u.Table? && Reassigned(t, u, f)
    requires forall e :: e in t.sets ==> e.val != Nil && f(e.val) != Nil
    requires mt == Contents(t, |t.sets|) && mu == Contents(u, |u.sets|)
    ensures mt == mu <==> forall e :: e in t.sets ==> Meaning(f(e.val)) == Meaning(e.val)
  {
    hide Meaning, Contents, Reassigned, Keyed;
    if forall e :: e in t.sets ==> Meaning(f(e.val)) == Meaning(e.val) {
      forall x | x in mt
        ensures x in mu && mu[x] == mt[x]
      {
        var i := ContentsComesFrom(t, |t.sets|, x);
        ReassignedHas(t, u, f, t.sets[i]);
      }
      forall x | x in mu
        ensures x in mt
      {
        var e := ReassignedComesFrom(t, u, f, x);
        ReassignedHas(t, u, f, e);
      }
      assert mt == mu;
    }
    if mt == mu {
      forall e | e in t.sets
        ensures Meaning(f(e.val)) == Meaning(e.val)
      {
        ReassignedHas(t, u, f, e);
      }
    }
  }

  /** Every key of a table was assigned at some point. */
  lemma {:induction false} KeyComesFrom(t: Lua, k: nat, x: Value) returns (i: nat)
    requires t.Table? && k <= |t.sets| && x in Contents(t, k)
    ensures i < k && Meaning(t.sets[i].key) == x
    decreases k
  {
    if Meaning(t.sets[k - 1].key) == x {
      i := k - 1;
    } else {
      i := KeyComesFrom(t, k - 1, x);
    }
  }
}
