/** The flow cache of ipflow.c: a list of flows, hash chains over them, and links between a flow and the flow in
    the other direction. A node's address is a number, and lists and chains are sequences of addresses. */
module FlowCache {
  import opened Bytes
  import opened Options
  import opened FlowKeys

  datatype Count = Count(packets: nat, octets: nat)

  // ---------------------------------------------------------------- walking chains

  /** The first flow of a chain that a packet meets. */
  function FirstMet(chain: seq<nat>, nodes: Nodes, k: Key): Option<nat> {
    if chain == [] then None
    else if chain[0] in nodes && Met(k, nodes[chain[0]]) then Some(chain[0])
    else FirstMet(chain[1..], nodes, k)
  }

  lemma {:induction false} FirstMetIsMet(chain: seq<nat>, nodes: Nodes, k: Key)
    ensures var r := FirstMet(chain, nodes, k);
      && (r.Some? ==> r.value in chain && r.value in nodes && Met(k, nodes[r.value]))
      && (r == None ==> forall x :: x in chain && x in nodes ==> !Met(k, nodes[x]))
  {
    hide Met;
    if chain != [] {
      FirstMetIsMet(chain[1..], nodes, k);
    }
  }

  /** No flow but that of its key is met by the packet. */
  ghost predicate Clear(k: Key, nodes: Nodes, size: nat)
    requires WellFormed(k) && size > 0
  {
    forall x :: x in nodes && nodes[x].hash == HashOf(k, size) && Met(k, nodes[x]) ==> nodes[x].key == k
  }

  /** Where the keys are apart, a packet meets the flow of its key only, and its reverse that of the reverse. */
  lemma ApartIsClear(keys: set<Key>, links: bool, size: nat, nodes: Nodes, k: Key)
    requires size > 0 && forall l :: l in keys ==> WellFormed(l)
    requires Apart(keys, links, size) && k in keys
    requires forall x :: x in nodes ==>
      nodes[x].key in keys && Stored(nodes[x]) && nodes[x].hash == HashOf(nodes[x].key, size)
    ensures Clear(k, nodes, size)
    ensures links ==> Clear(Reverse(k), nodes, size)
  {
    hide HashOf, Met, Stored, WellFormed, Meets;
    forall x | x in nodes && nodes[x].hash == HashOf(k, size) && Met(k, nodes[x]) ensures nodes[x].key == k {
      MetOnlyIf(k, nodes[x], size);
    }
    if links {
      var back := Reverse(k);
      forall x | x in nodes && nodes[x].hash == HashOf(back, size) && Met(back, nodes[x]) ensures nodes[x].key == back {
        MetOnlyIf(back, nodes[x], size);
      }
    }
  }

  /** In a chain, a packet that meets no foreign flow finds the flow of its key exactly when there is one. */
  lemma LookupExact(chains: seq<seq<nat>>, nodes: Nodes, index: map<Key, nat>, k: Key)
    requires Chained(chains, nodes) && Indexed(nodes, index) && WellFormed(k)
    ensures var r := FirstMet(chains[HashOf(k, |chains|)], nodes, k);
      && (r.Some? ==> r.value in nodes && nodes[r.value].hash == HashOf(k, |chains|) && Met(k, nodes[r.value]))
      && (r == None ==> k !in index)
      && (Clear(k, nodes, |chains|) ==> r == if k in index then Some(index[k]) else None)
  {
    hide HashOf, Met, WellFormed, Stored;
    var chain := chains[HashOf(k, |chains|)];
    FirstMetIsMet(chain, nodes, k);
    if k in index {
      MetOnlyIf(k, nodes[index[k]], |chains|);
    }
  }

  // ---------------------------------------------------------------- sequences of addresses

  ghost predicate NoDuplicates(s: seq<nat>) {
    forall i, j :: 0 <= i < j < |s| ==> s[i] != s[j]
  }

  function Without(s: seq<nat>, x: nat): seq<nat> {
    if s == [] then [] else if s[0] == x then s[1..] else [s[0]] + Without(s[1..], x)
  }

  lemma {:induction false} WithoutIsRemoval(s: seq<nat>, x: nat)
    requires NoDuplicates(s)
    ensures NoDuplicates(Without(s, x))
    ensures forall y :: y in Without(s, x) <==> y in s && y != x
    ensures |Without(s, x)| == |s| - if x in s then 1 else 0
  {
    if s != [] && s[0] != x {
      WithoutIsRemoval(s[1..], x);
      assert s[0] !in s[1..];
    }
  }

  // ---------------------------------------------------------------- consistency

  type Nodes = map<nat, Flow>

  ghost predicate Listed(list: seq<nat>, nodes: Nodes) {
    NoDuplicates(list) && forall x :: x in list <==> x in nodes
  }

  /** Every node is in the chain of its hash, once, and in no other. */
  ghost predicate Chained(chains: seq<seq<nat>>, nodes: Nodes) {
    && |chains| > 0
    && (forall b :: 0 <= b < |chains| ==> NoDuplicates(chains[b]))
    && (forall b, x :: 0 <= b < |chains| ==> (x in chains[b] <==> x in nodes && nodes[x].hash == b))
    && (forall x :: x in nodes ==> Stored(nodes[x]) && nodes[x].hash == HashOf(nodes[x].key, |chains|))
  }

  /** Keys are unique: `index` tells the node of each. */
  ghost predicate Indexed(nodes: Nodes, index: map<Key, nat>) {
    && (forall x :: x in nodes ==> nodes[x].key in index && index[nodes[x].key] == x)
    && (forall k :: k in index ==> index[k] in nodes && nodes[index[k]].key == k)
  }

  /** With biflows on, a flow is linked to the flow of its reversed key when that is in the cache, and to none
      otherwise. No flow is its own reverse. */
  ghost predicate Linked(nodes: Nodes, index: map<Key, nat>, biflows: bool) {
    forall x :: x in nodes ==>
      var back := Reverse(nodes[x].key);
      && nodes[x].rflow == (if biflows && back in index then Some(index[back]) else None)
      && (biflows ==> nodes[x].key != back)
  }

  /** The links are a symmetric pairing of flows with mutually reversed keys. */
  lemma LinksAreSymmetric(nodes: Nodes, index: map<Key, nat>, biflows: bool, x: nat)
    requires Indexed(nodes, index) && Linked(nodes, index, biflows)
    requires x in nodes && nodes[x].rflow.Some?
    ensures var y := nodes[x].rflow.value;
      && y in nodes && y != x
      && nodes[y].key == Reverse(nodes[x].key) && nodes[x].key == Reverse(nodes[y].key)
      && nodes[y].rflow == Some(x)
  {
    var back := Reverse(nodes[x].key);
    assert index[back] in nodes && nodes[index[back]].key == back;
    assert Reverse(back) == nodes[x].key;
  }

  /** What the cache says about traffic: the counts of each key. */
  ghost function View(nodes: Nodes, index: map<Key, nat>): map<Key, Count> {
    map k | k in index && index[k] in nodes :: Count(nodes[index[k]].packets, nodes[index[k]].octets)
  }

  ghost function PacketSum(list: seq<nat>, nodes: Nodes): nat
    requires forall x :: x in list ==> x in nodes
  {
    if list == [] then 0 else nodes[list[0]].packets + PacketSum(list[1..], nodes)
  }

  ghost function OctetSum(list: seq<nat>, nodes: Nodes): nat
    requires forall x :: x in list ==> x in nodes
  {
    if list == [] then 0 else nodes[list[0]].octets + OctetSum(list[1..], nodes)
  }

  /** Counts of nodes not in the list do not matter. */
  lemma {:induction false} SumsFrame(list: seq<nat>, nodes: Nodes, after: Nodes)
    requires forall x :: x in list ==> x in nodes && x in after
    requires forall x :: x in list ==> nodes[x].packets == after[x].packets && nodes[x].octets == after[x].octets
    ensures PacketSum(list, after) == PacketSum(list, nodes)
    ensures OctetSum(list, after) == OctetSum(list, nodes)
  {
    if list != [] {
      SumsFrame(list[1..], nodes, after);
    }
  }

  lemma {:induction false} SumsWithout(list: seq<nat>, nodes: Nodes, x: nat)
    requires NoDuplicates(list) && x in list && forall y :: y in list ==> y in nodes
    ensures forall y :: y in Without(list, x) ==> y in nodes
    ensures PacketSum(list, nodes) == PacketSum(Without(list, x), nodes) + nodes[x].packets
    ensures OctetSum(list, nodes) == OctetSum(Without(list, x), nodes) + nodes[x].octets
  {
    WithoutIsRemoval(list, x);
    if list[0] != x {
      SumsWithout(list[1..], nodes, x);
      var w := Without(list, x);
      assert w[0] == list[0] && w[1..] == Without(list[1..], x);
    }
  }

  // ---------------------------------------------------------------- steps on the parts

  lemma AddListed(list: seq<nat>, nodes: Nodes, x: nat, f: Flow)
    requires Listed(list, nodes) && x !in nodes
    ensures Listed([x] + list, nodes[x := f])
  {
  }

  lemma AddChained(chains: seq<seq<nat>>, nodes: Nodes, x: nat, f: Flow)
    requires Chained(chains, nodes) && x !in nodes
    requires Stored(f) && f.hash == HashOf(f.key, |chains|)
    ensures f.hash < |chains|
    ensures Chained(chains[f.hash := [x] + chains[f.hash]], nodes[x := f])
  {
  }

  lemma ListedMembers(list: seq<nat>, nodes: Nodes)
    requires Listed(list, nodes)
    ensures forall x :: x in list <==> x in nodes
  {
  }

  lemma AddIndexed(nodes: Nodes, index: map<Key, nat>, x: nat, f: Flow)
    requires Indexed(nodes, index) && x !in nodes && f.key !in index
    ensures Indexed(nodes[x := f], index[f.key := x])
    ensures View(nodes[x := f], index[f.key := x]) == View(nodes, index)[f.key := Count(f.packets, f.octets)]
  {
  }

  lemma AddSums(list: seq<nat>, nodes: Nodes, x: nat, f: Flow)
    requires Listed(list, nodes) && x !in nodes
    ensures Listed([x] + list, nodes[x := f])
    ensures PacketSum([x] + list, nodes[x := f]) == PacketSum(list, nodes) + f.packets
    ensures OctetSum([x] + list, nodes[x := f]) == OctetSum(list, nodes) + f.octets
  {
    assert ([x] + list)[1..] == list;
    SumsFrame(list, nodes, nodes[x := f]);
  }

  lemma DropListed(list: seq<nat>, nodes: Nodes, x: nat)
    requires Listed(list, nodes) && x in nodes
    ensures Listed(Without(list, x), nodes - {x})
  {
    WithoutIsRemoval(list, x);
  }

  lemma DropChained(chains: seq<seq<nat>>, nodes: Nodes, x: nat)
    requires Chained(chains, nodes) && x in nodes
    ensures nodes[x].hash < |chains| && x in chains[nodes[x].hash]
    ensures var h := nodes[x].hash; Chained(chains[h := Without(chains[h], x)], nodes - {x})
  {
    hide Without, NoDuplicates, Stored, HashOf;
    var h := nodes[x].hash;
    WithoutIsRemoval(chains[h], x);
  }

  /** Only keys, addresses and hashes of nodes matter to lists and chains. */
  lemma SameKeys(list: seq<nat>, chains: seq<seq<nat>>, nodes: Nodes, after: Nodes)
    requires Listed(list, nodes) && Chained(chains, nodes) && after.Keys == nodes.Keys
    requires forall x :: x in nodes ==>
      after[x].key == nodes[x].key && after[x].mem == nodes[x].mem && after[x].hash == nodes[x].hash
    ensures Listed(list, after) && Chained(chains, after)
  {
  }

  lemma AddLinked(nodes: Nodes, index: map<Key, nat>, biflows: bool, x: nat, f: Flow)
    requires Indexed(nodes, index) && Linked(nodes, index, biflows) && x !in nodes && f.key !in index
    requires f.rflow == None && (biflows ==> f.key != Reverse(f.key))
    ensures var after, newIndex, back := nodes[x := f], index[f.key := x], Reverse(f.key);
      && Indexed(after, newIndex)
      && (biflows && back in index ==>
          var y := index[back];
          Linked(LinkBoth(after, x, y), newIndex, biflows))
      && (!biflows || back !in index ==> Linked(after, newIndex, biflows))
  {
    hide Reverse;
    var back, after, newIndex := Reverse(f.key), nodes[x := f], index[f.key := x];
    ReverseTwice();
    forall z | z in nodes && Reverse(nodes[z].key) == f.key ensures nodes[z].key == back {
      assert Reverse(Reverse(nodes[z].key)) == nodes[z].key;
    }
    AddIndexed(nodes, index, x, f);
  }

  lemma ReverseTwice()
    ensures forall k: Key :: Reverse(Reverse(k)) == k
  {
  }

  /** The new flow `x` and the flow `y` that it answers are linked; `x` is not the initiator. */
  function LinkBoth(nodes: Nodes, x: nat, y: nat): Nodes
    requires x in nodes && y in nodes
  {
    var one := nodes[y := nodes[y].(rflow := Some(x))];
    one[x := one[x].(rflow := Some(y), initiator := false)]
  }

  /** Nothing of a flow has changed but its link and who began. */
  predicate LinkOnly(f: Flow, g: Flow) {
    g == f.(rflow := g.rflow, initiator := g.initiator)
  }

  /** All flows of a chain that the reversed key meets are linked with `x`. */
  function LinkAll(nodes: Nodes, chain: seq<nat>, back: Key, x: nat): Nodes
    requires x in nodes
  {
    if chain == [] then nodes
    else if chain[0] in nodes && Met(back, nodes[chain[0]]) then LinkAll(LinkBoth(nodes, x, chain[0]), chain[1..], back, x)
    else LinkAll(nodes, chain[1..], back, x)
  }

  lemma {:induction false} LinkAllKeeps(nodes: Nodes, chain: seq<nat>, back: Key, x: nat)
    requires x in nodes
    ensures LinkAll(nodes, chain, back, x).Keys == nodes.Keys
    ensures forall z :: z in nodes ==> LinkOnly(nodes[z], LinkAll(nodes, chain, back, x)[z])
    decreases |chain|
  {
    hide Met;
    if chain != [] {
      var y := chain[0];
      if y in nodes && Met(back, nodes[y]) {
        LinkAllKeeps(LinkBoth(nodes, x, y), chain[1..], back, x);
      } else {
        LinkAllKeeps(nodes, chain[1..], back, x);
      }
    }
  }

  /** The links leave keys and counts as they are. */
  lemma LinkOnlyKeeps(list: seq<nat>, chains: seq<seq<nat>>, nodes: Nodes, index: map<Key, nat>, after: Nodes)
    requires after.Keys == nodes.Keys && forall z :: z in nodes ==> LinkOnly(nodes[z], after[z])
    requires Listed(list, nodes) && Chained(chains, nodes) && Indexed(nodes, index)
    ensures Listed(list, after) && Chained(chains, after) && Indexed(after, index)
    ensures View(after, index) == View(nodes, index)
    ensures PacketSum(list, after) == PacketSum(list, nodes) && OctetSum(list, after) == OctetSum(list, nodes)
  {
    hide Listed, Chained, PacketSum, OctetSum;
    SameKeys(list, chains, nodes, after);
    ListedMembers(list, nodes);
    SumsFrame(list, nodes, after);
  }

  /** Where a chain has one flow that is met, that one is linked. */
  lemma {:induction false} LinkAllOne(nodes: Nodes, chain: seq<nat>, back: Key, x: nat, y: nat)
    requires x in nodes && y in nodes && NoDuplicates(chain)
    requires forall z :: z in chain && z in nodes ==> (Met(back, nodes[z]) <==> z == y)
    ensures LinkAll(nodes, chain, back, x) == if y in chain then LinkBoth(nodes, x, y) else nodes
    decreases |chain|
  {
    hide Met;
    if chain != [] {
      var rest := chain[1..];
      if chain[0] == y {
        var after := LinkBoth(nodes, x, y);
        assert y !in rest;
        LinkNone(after, rest, back, x, nodes);
      } else {
        LinkAllOne(nodes, rest, back, x, y);
      }
    }
  }

  /** Where it has none, nothing is linked. */
  lemma {:induction false} LinkNone(nodes: Nodes, chain: seq<nat>, back: Key, x: nat, before: Nodes)
    requires x in nodes && before.Keys == nodes.Keys && forall z :: z in before ==> LinkOnly(before[z], nodes[z])
    requires forall z :: z in chain && z in before ==> !Met(back, before[z])
    ensures LinkAll(nodes, chain, back, x) == nodes
    decreases |chain|
  {
    if chain != [] {
      LinkNone(nodes, chain[1..], back, x, before);
    }
  }

  /** If the reversed key meets no foreign flow, its flow is linked when there is one, and none otherwise. */
  lemma LinkExact(chains: seq<seq<nat>>, nodes: Nodes, index: map<Key, nat>, back: Key, x: nat)
    requires Chained(chains, nodes) && Indexed(nodes, index) && WellFormed(back) && x in nodes
    requires Clear(back, nodes, |chains|)
    ensures LinkAll(nodes, chains[HashOf(back, |chains|)], back, x)
      == if back in index then LinkBoth(nodes, x, index[back]) else nodes
  {
    hide HashOf, Met, WellFormed, Stored, LinkBoth, LinkAll;
    var chain := chains[HashOf(back, |chains|)];
    if back in index {
      var y := index[back];
      MetOnlyIf(back, nodes[y], |chains|);
      LinkAllOne(nodes, chain, back, x, y);
    } else {
      LinkNone(nodes, chain, back, x, nodes);
    }
  }

  /** The node of a new flow. */
  function NewNode(k: Key, hash: nat, was: Memory): Flow
    requires WellFormed(k)
  {
    Flow(k, Written(k, was), hash, None, true, 0, 0)
  }

  /** The nodes with a new one, linked if links are kept. `chains` has it already. */
  function WithFlow(nodes: Nodes, chains: seq<seq<nat>>, biflows: bool, k: Key, was: Memory, x: nat): Nodes
    requires |chains| > 0 && WellFormed(k)
  {
    var one := nodes[x := NewNode(k, HashOf(k, |chains|), was)];
    if biflows then LinkAll(one, chains[HashOf(Reverse(k), |chains|)], Reverse(k), x) else one
  }

  /** The reversed key does not meet the new flow itself. */
  lemma StaysClear(nodes: Nodes, k: Key, was: Memory, x: nat, size: nat)
    requires WellFormed(k) && size > 0 && k != Reverse(k) && Clear(Reverse(k), nodes, size)
    ensures Clear(Reverse(k), nodes[x := NewNode(k, HashOf(k, size), was)], size)
  {
    hide HashOf;
    NotSelfMet(k, HashOf(k, size), was);
  }

  lemma NotSelfMet(k: Key, hash: nat, was: Memory)
    requires WellFormed(k) && k != Reverse(k)
    ensures !Met(Reverse(k), NewNode(k, hash, was))
  {
    var f := NewNode(k, hash, was);
    assert f.mem.s[..|k.saddr|] == k.saddr && f.mem.d[..|k.daddr|] == k.daddr;
  }

  lemma ChainIn(chains: seq<seq<nat>>, nodes: Nodes, h: nat)
    requires Chained(chains, nodes) && h < |chains|
    ensures forall x :: x in chains[h] ==> x in nodes
  {
  }

  /** The nodes without `x`; a flow that was linked to it is so no longer. */
  function Unlinked(nodes: Nodes, x: nat): Nodes
    requires x in nodes
  {
    var rest := nodes - {x};
    var r := nodes[x].rflow;
    if r.Some? && r.value in rest then rest[r.value := rest[r.value].(rflow := None)] else rest
  }

  /** Apart from `x` itself, only its partner's link changes. */
  lemma UnlinkedKeeps(nodes: Nodes, x: nat)
    requires x in nodes
    ensures Unlinked(nodes, x).Keys == nodes.Keys - {x}
    ensures forall z :: z in nodes && z != x ==>
      Unlinked(nodes, x)[z] == nodes[z].(rflow := if nodes[x].rflow == Some(z) then None else nodes[z].rflow)
  {
  }

  lemma DropIndexed(nodes: Nodes, index: map<Key, nat>, x: nat)
    requires Indexed(nodes, index) && x in nodes
    ensures Indexed(Unlinked(nodes, x), index - {nodes[x].key})
    ensures View(Unlinked(nodes, x), index - {nodes[x].key}) == View(nodes, index) - {nodes[x].key}
  {
    UnlinkedKeeps(nodes, x);
    hide Unlinked;
    assert forall z :: z in nodes && z != x ==> nodes[z].key != nodes[x].key;
  }

  lemma DropLinked(nodes: Nodes, index: map<Key, nat>, biflows: bool, x: nat, z: nat)
    requires Indexed(nodes, index) && Linked(nodes, index, biflows) && x in nodes && z in nodes && z != x
    ensures var after, newIndex := Unlinked(nodes, x), index - {nodes[x].key};
      && z in after
      && var back := Reverse(after[z].key);
         && after[z].rflow == (if biflows && back in newIndex then Some(newIndex[back]) else None)
         && (biflows ==> after[z].key != back)
  {
    UnlinkedKeeps(nodes, x);
    hide Unlinked;
    var back := Reverse(nodes[z].key);
    assert Reverse(back) == nodes[z].key;
    if nodes[x].rflow == Some(z) {
      LinksAreSymmetric(nodes, index, biflows, x);
    } else if back == nodes[x].key {
      assert nodes[x].rflow != Some(z);
      assert nodes[z].key in index && index[nodes[z].key] == z;
    }
  }

  lemma DropKeepsParts(list: seq<nat>, chains: seq<seq<nat>>, nodes: Nodes, x: nat)
    requires Listed(list, nodes) && Chained(chains, nodes) && x in nodes
    ensures nodes[x].hash < |chains|
    ensures Listed(Without(list, x), Unlinked(nodes, x))
    ensures var h := nodes[x].hash; Chained(chains[h := Without(chains[h], x)], Unlinked(nodes, x))
    ensures |Without(list, x)| == |list| - 1
    ensures PacketSum(list, nodes) == PacketSum(Without(list, x), Unlinked(nodes, x)) + nodes[x].packets
    ensures OctetSum(list, nodes) == OctetSum(Without(list, x), Unlinked(nodes, x)) + nodes[x].octets
  {
    UnlinkedKeeps(nodes, x);
    hide Unlinked;
    DropListed(list, nodes, x);
    DropChained(chains, nodes, x);
    WithoutIsRemoval(list, x);
    var h := nodes[x].hash;
    SameKeys(Without(list, x), chains[h := Without(chains[h], x)], nodes - {x}, Unlinked(nodes, x));
    SumsWithout(list, nodes, x);
    SumsFrame(Without(list, x), nodes, Unlinked(nodes, x));
  }

  lemma DropAllLinked(nodes: Nodes, index: map<Key, nat>, biflows: bool, x: nat)
    requires Indexed(nodes, index) && Linked(nodes, index, biflows) && x in nodes
    ensures Linked(Unlinked(nodes, x), index - {nodes[x].key}, biflows)
  {
    UnlinkedKeeps(nodes, x);
    forall z | z in nodes && z != x
      ensures var after, newIndex := Unlinked(nodes, x), index - {nodes[x].key};
        && z in after
        && var back := Reverse(after[z].key);
           && after[z].rflow == (if biflows && back in newIndex then Some(newIndex[back]) else None)
           && (biflows ==> after[z].key != back)
    {
      DropLinked(nodes, index, biflows, x, z);
    }
  }

  /** The partner of a flow, as a set of at most one node. */
  function Partner(f: Flow): set<nat> {
    if f.rflow.Some? then {f.rflow.value} else {}
  }

  lemma KeyAbsentUnlessIndexed(nodes: Nodes, index: map<Key, nat>, k: Key)
    ensures k in View(nodes, index) ==> k in index
  {
  }

  /** A flow without a partner is dropped alone; its reversed key is not in the cache. */
  lemma DropAlone(nodes: Nodes, index: map<Key, nat>, biflows: bool, x: nat)
    requires Indexed(nodes, index) && Linked(nodes, index, biflows) && x in nodes && nodes[x].rflow == None
    ensures Unlinked(nodes, x) == nodes - {x} - Partner(nodes[x])
    ensures var k := nodes[x].key;
      View(nodes, index) - {k} == View(nodes, index) - (if biflows then {k, Reverse(k)} else {k})
  {
    KeyAbsentUnlessIndexed(nodes, index, Reverse(nodes[x].key));
    hide View;
  }

  /** After the flow, its partner is dropped as a flow without one. */
  lemma DropPair(nodes: Nodes, index: map<Key, nat>, biflows: bool, x: nat)
    requires Indexed(nodes, index) && Linked(nodes, index, biflows) && x in nodes && nodes[x].rflow.Some?
    ensures var y, after := nodes[x].rflow.value, Unlinked(nodes, x);
      && biflows && y in nodes && y in after
      && after[y].key == Reverse(nodes[x].key)
      && after[y].packets == nodes[y].packets && after[y].octets == nodes[y].octets
      && Unlinked(after, y) == nodes - {x} - Partner(nodes[x])
  {
    LinksAreSymmetric(nodes, index, biflows, x);
    UnlinkedKeeps(nodes, x);
    var y, after := nodes[x].rflow.value, Unlinked(nodes, x);
    UnlinkedKeeps(after, y);
    hide Unlinked, Indexed, Linked;
    assert after[y].rflow == None;
    forall z | z in nodes && z != x && z != y
      ensures Unlinked(after, y)[z] == nodes[z]
    {
    }
  }

  /** A packet of `n` bytes counted under its key. */
  ghost function Counted(view: map<Key, Count>, k: Key, n: nat): map<Key, Count> {
    view[k := if k in view then Count(view[k].packets + 1, view[k].octets + n) else Count(1, n)]
  }

  function CountedNode(nodes: Nodes, x: nat, n: nat): Nodes
    requires x in nodes
  {
    nodes[x := nodes[x].(packets := nodes[x].packets + 1, octets := nodes[x].octets + n)]
  }

  lemma CountKeepsParts(list: seq<nat>, chains: seq<seq<nat>>, nodes: Nodes, x: nat, n: nat)
    requires Listed(list, nodes) && Chained(chains, nodes) && x in nodes
    ensures Listed(list, CountedNode(nodes, x, n)) && Chained(chains, CountedNode(nodes, x, n))
    ensures PacketSum(list, CountedNode(nodes, x, n)) == PacketSum(list, nodes) + 1
    ensures OctetSum(list, CountedNode(nodes, x, n)) == OctetSum(list, nodes) + n
  {
    var after := CountedNode(nodes, x, n);
    SameKeys(list, chains, nodes, after);
    hide Chained;
    SumsWithout(list, nodes, x);
    SumsWithout(list, after, x);
    WithoutIsRemoval(list, x);
    SumsFrame(Without(list, x), nodes, after);
  }

  lemma NodeKey(nodes: Nodes, index: map<Key, nat>, x: nat)
    requires Indexed(nodes, index) && x in nodes
    ensures var k := nodes[x].key;
      k in index && index[k] == x
      && k in View(nodes, index) && View(nodes, index)[k] == Count(nodes[x].packets, nodes[x].octets)
  {
  }

  lemma CountKeepsIndex(nodes: Nodes, index: map<Key, nat>, biflows: bool, x: nat, n: nat)
    requires Indexed(nodes, index) && x in nodes
    ensures Indexed(CountedNode(nodes, x, n), index)
    ensures Linked(nodes, index, biflows) ==> Linked(CountedNode(nodes, x, n), index, biflows)
    ensures View(CountedNode(nodes, x, n), index)
      == View(nodes, index)[nodes[x].key := Count(nodes[x].packets + 1, nodes[x].octets + n)]
  {
  }

  lemma KeyAt(nodes: Nodes, index: map<Key, nat>, k: Key)
    requires Indexed(nodes, index) && k in index
    ensures var x := index[k];
      && x in nodes && nodes[x].key == k
      && k in View(nodes, index) && View(nodes, index)[k] == Count(nodes[x].packets, nodes[x].octets)
  {
  }

  lemma KeyAbsent(nodes: Nodes, index: map<Key, nat>, k: Key)
    requires k !in index
    ensures k !in View(nodes, index)
  {
  }

  function CountAt(nodes: Nodes, r: Option<nat>): Count {
    if r.Some? && r.value in nodes then Count(nodes[r.value].packets, nodes[r.value].octets) else Count(0, 0)
  }

  // ---------------------------------------------------------------- the cache

  class Cache {
    var list: seq<nat>
    var hashtab: array<seq<nat>>
    var nodes: Nodes
    var nhashes: int
    var nflows: int
    const maxflows: nat
    const biflows: bool
    var unused: nat
    ghost var index: map<Key, nat>

    /** The list and the chains hold the same nodes, with unique keys, and the counters are their number. */
    ghost predicate Consistent()
      reads this, hashtab
    {
      && Listed(list, nodes)
      && Chained(hashtab[..], nodes)
      && Indexed(nodes, index)
      && hashtab.Length > 0
      && nflows == nhashes == |list| <= maxflows
      && (forall x :: x in nodes ==> x < unused)
    }

    ghost predicate Valid()
      reads this, hashtab
    {
      Consistent() && Linked(nodes, index, biflows)
    }

    constructor (maxflows: nat, biflows: bool, hashsize: nat)
      requires hashsize > 0
      ensures Valid() && fresh(hashtab) && hashtab.Length == hashsize && this.biflows == biflows
      ensures list == [] && nodes == map[] && index == map[]
      ensures this.maxflows == if maxflows == 0 then 5000 else maxflows
    {
      this.maxflows := if maxflows == 0 then 5000 else maxflows;
      this.biflows := biflows;
      hashtab := new seq<nat>[hashsize](_ => []);
      list, nodes, nflows, nhashes, unused := [], map[], 0, 0, 0;
      index := map[];
    }

    /** The flow that a packet is counted in. */
    ghost function Meeting(k: Key): Option<nat>
      reads this, hashtab
      requires hashtab.Length > 0 && WellFormed(k)
    {
      FirstMet(hashtab[HashOf(k, hashtab.Length)], nodes, k)
    }

    /** Walks the chain of a hash to the first flow that the packet meets. That is the flow of its key whenever no
        foreign flow is met. */
    method Lookup(k: Key, hash: nat) returns (r: Option<nat>)
      requires Consistent() && WellFormed(k) && hash == HashOf(k, hashtab.Length)
      ensures r == Meeting(k)
      ensures Clear(k, nodes, hashtab.Length) ==> r == if k in index then Some(index[k]) else None
    {
      hide HashOf, Met, Indexed, Clear, Stored, WellFormed;
      ghost var chains := hashtab[..];
      LookupExact(chains, nodes, index, k);
      var chain := hashtab[hash];
      assert chain == chains[hash];
      var i := 0;
      while i < |chain|
        invariant i <= |chain|
        invariant FirstMet(chain[i..], nodes, k) == FirstMet(chain, nodes, k)
      {
        assert chain[i] in chains[hash];
        assert chain[i..][1..] == chain[i + 1..];
        if Met(k, nodes[chain[i]]) {
          return Some(chain[i]);
        }
        i := i + 1;
      }
      return None;
    }

    /** Looks for flows in the other direction and links them with the new flow `x`. */
    method LinkReverse(x: nat, k: Key)
      requires Consistent() && WellFormed(k) && x in nodes
      modifies this`nodes
      ensures Consistent()
      ensures nodes == LinkAll(old(nodes), hashtab[HashOf(Reverse(k), hashtab.Length)], Reverse(k), x)
      ensures View(nodes, index) == View(old(nodes), index)
      ensures PacketSum(list, nodes) == PacketSum(list, old(nodes)) && OctetSum(list, nodes) == OctetSum(list, old(nodes))
    {
      hide Listed, Chained, Indexed, View, PacketSum, OctetSum, HashOf, Met, WellFormed;
      var back := Reverse(k);
      var hash := CalcHash(back, hashtab.Length);
      var chain := hashtab[hash];
      ghost var before := nodes;
      LinkAllKeeps(nodes, chain, back, x);
      LinkOnlyKeeps(list, hashtab[..], nodes, index, LinkAll(nodes, chain, back, x));
      ChainIn(hashtab[..], nodes, hash);
      var i := 0;
      while i < |chain|
        invariant i <= |chain| && nodes.Keys == before.Keys
        invariant LinkAll(nodes, chain[i..], back, x) == LinkAll(before, chain, back, x)
      {
        assert chain[i..][0] == chain[i] && chain[i..][1..] == chain[i + 1..];
        assert chain[i] in chain;
        if Met(back, nodes[chain[i]]) {
          nodes := LinkBoth(nodes, x, chain[i]);
        }
        i := i + 1;
      }
    }

    /** A node for a new flow, at the head of its chain and of the list. `was` is what its memory held. */
    method AddNode(k: Key, hash: nat, was: Memory) returns (x: nat)
      requires Consistent() && WellFormed(k) && hash == HashOf(k, hashtab.Length)
      requires k !in index && nflows < maxflows
      modifies this, hashtab
      ensures Consistent() && hashtab == old(hashtab)
      ensures x == old(unused) && nodes == old(nodes)[x := NewNode(k, hash, was)] && unused == x + 1
      ensures list == [x] + old(list) && index == old(index)[k := x]
      ensures View(nodes, index) == old(View(nodes, index))[k := Count(0, 0)]
      ensures PacketSum(list, nodes) == old(PacketSum(list, nodes)) && OctetSum(list, nodes) == old(OctetSum(list, nodes))
    {
      hide Listed, Chained, Indexed, View, PacketSum, OctetSum;
      ghost var chains0 := hashtab[..];
      var f := NewNode(k, hash, was);
      x := unused;
      AddListed(list, nodes, x, f);
      AddChained(chains0, nodes, x, f);
      AddIndexed(nodes, index, x, f);
      AddSums(list, nodes, x, f);
      unused, nflows, nhashes := unused + 1, nflows + 1, nhashes + 1;
      hashtab[hash] := [x] + hashtab[hash];
      assert hashtab[..] == chains0[hash := [x] + chains0[hash]];
      nodes, list, index := nodes[x := f], [x] + list, index[k := x];
    }

    /** A new flow, linked with those that its reversed key meets. The links stay those of reversed keys if that
        meets no foreign flow. */
    method NewFlow(k: Key, hash: nat, was: Memory) returns (x: nat)
      requires Consistent() && WellFormed(k) && hash == HashOf(k, hashtab.Length)
      requires k !in index && nflows < maxflows && (biflows ==> k != Reverse(k))
      modifies this, hashtab
      ensures Consistent() && hashtab == old(hashtab)
      ensures old(Linked(nodes, index, biflows) && (biflows ==> Clear(Reverse(k), nodes, hashtab.Length)))
        ==> Linked(nodes, index, biflows)
      ensures x == old(unused) && list == [x] + old(list) && index == old(index)[k := x] && unused == x + 1
      ensures nodes == WithFlow(old(nodes), hashtab[..], biflows, k, was, x)
      ensures View(nodes, index) == old(View(nodes, index))[k := Count(0, 0)]
      ensures PacketSum(list, nodes) == old(PacketSum(list, nodes)) && OctetSum(list, nodes) == old(OctetSum(list, nodes))
    {
      hide Linked, Indexed, View, PacketSum, OctetSum, LinkBoth, LinkAll, Listed, Chained, Clear, Met, HashOf, WellFormed;
      ghost var calm := Linked(nodes, index, biflows) && (biflows ==> Clear(Reverse(k), nodes, hashtab.Length));
      ghost var f := NewNode(k, hash, was);
      ghost var nodes0 := nodes;
      if calm {
        AddLinked(nodes, index, biflows, unused, f);
      }
      x := AddNode(k, hash, was);
      if biflows {
        if calm {
          StaysClear(nodes0, k, was, x, hashtab.Length);
          LinkExact(hashtab[..], nodes, index, Reverse(k), x);
        }
        LinkReverse(x, k);
      }
    }

    /** One packet of `n` bytes. It is counted in the first flow of its chain that it meets, in a new flow if it meets
        none, and nowhere when it meets none and the cache is full. */
    method Update(k: Key, n: nat, was: Memory) returns (r: Option<nat>)
      requires Consistent() && WellFormed(k) && (biflows ==> k != Reverse(k))
      modifies this, hashtab
      ensures Consistent() && hashtab == old(hashtab)
      ensures r == None <==> old(Meeting(k)) == None && |old(list)| == maxflows
      ensures r == None ==> nodes == old(nodes)
      ensures r == None || old(Meeting(k)).Some? ==>
        list == old(list) && index == old(index) && hashtab[..] == old(hashtab[..])
      ensures old(Meeting(k)).Some? ==>
        && r == old(Meeting(k)) && r.value in old(nodes)
        && nodes == CountedNode(old(nodes), r.value, n)
        && View(nodes, index) == Counted(old(View(nodes, index)), old(nodes)[r.value].key, n)
      ensures old(Meeting(k)) == None && r.Some? ==>
        var after := WithFlow(old(nodes), hashtab[..], biflows, k, was, r.value);
        && r.value == old(unused) && list == [r.value] + old(list) && index == old(index)[k := r.value]
        && r.value in after && nodes == CountedNode(after, r.value, n)
        && View(nodes, index) == Counted(old(View(nodes, index)), k, n)
      ensures old(Linked(nodes, index, biflows)
          && (biflows && Meeting(k) == None && |list| < maxflows ==> Clear(Reverse(k), nodes, hashtab.Length)))
        ==> Linked(nodes, index, biflows)
      ensures PacketSum(list, nodes) == old(PacketSum(list, nodes)) + (if r.Some? then 1 else 0)
      ensures OctetSum(list, nodes) == old(OctetSum(list, nodes)) + (if r.Some? then n else 0)
    {
      hide Linked, Indexed, View, PacketSum, OctetSum, Listed, Chained, Met, HashOf, Clear, WithFlow, FirstMet;
      var hash := CalcHash(k, hashtab.Length);
      r := Lookup(k, hash);
      LookupExact(hashtab[..], nodes, index, k);
      if r == None {
        if nflows >= maxflows {
          return;
        }
        KeyAbsent(nodes, index, k);
        var x := NewFlow(k, hash, was);
        r := Some(x);
        KeyAt(nodes, index, k);
      } else {
        NodeKey(nodes, index, r.value);
      }
      CountKeepsParts(list, hashtab[..], nodes, r.value, n);
      CountKeepsIndex(nodes, index, biflows, r.value, n);
      SameIds(nodes, r.value, n);
      nodes := CountedNode(nodes, r.value, n);
    }

    /** Takes one flow out of the list, its chain and the index, and clears its partner's link to it. */
    method RemoveOne(x: nat)
      requires Valid() && x in nodes
      modifies this, hashtab
      ensures Valid() && hashtab == old(hashtab) && unused == old(unused)
      ensures nodes == Unlinked(old(nodes), x) && list == Without(old(list), x)
      ensures index == old(index) - {old(nodes)[x].key}
      ensures View(nodes, index) == old(View(nodes, index)) - {old(nodes)[x].key}
      ensures PacketSum(list, nodes) + old(nodes)[x].packets == old(PacketSum(list, nodes))
      ensures OctetSum(list, nodes) + old(nodes)[x].octets == old(OctetSum(list, nodes))
    {
      hide Linked, Indexed, View, PacketSum, OctetSum, Listed, Chained, Unlinked;
      ghost var chains := hashtab[..];
      DropKeepsParts(list, chains, nodes, x);
      DropIndexed(nodes, index, x);
      DropAllLinked(nodes, index, biflows, x);
      UnlinkedKeeps(nodes, x);
      var h := nodes[x].hash;
      list := Without(list, x);
      hashtab[h] := Without(hashtab[h], x);
      assert hashtab[..] == chains[h := Without(chains[h], x)];
      index := index - {nodes[x].key};
      nodes := Unlinked(nodes, x);
      nflows, nhashes := nflows - 1, nhashes - 1;
    }

    /** Drops a flow, and with biflows on its partner, and nothing else. */
    method Drop(x: nat)
      requires Valid() && x in nodes
      modifies this, hashtab
      ensures Valid() && hashtab == old(hashtab)
      ensures nodes == old(nodes) - {x} - Partner(old(nodes)[x])
      ensures var k := old(nodes)[x].key;
        View(nodes, index) == old(View(nodes, index)) - (if biflows then {k, Reverse(k)} else {k})
      ensures var f := old(nodes)[x];
        var g := CountAt(old(nodes), f.rflow);
        && PacketSum(list, nodes) + f.packets + g.packets == old(PacketSum(list, nodes))
        && OctetSum(list, nodes) + f.octets + g.octets == old(OctetSum(list, nodes))
    {
      hide Linked, Indexed, View, PacketSum, OctetSum, Listed, Chained, Unlinked, Reverse;
      var f := nodes[x];
      if f.rflow == None {
        DropAlone(nodes, index, biflows, x);
        RemoveOne(x);
      } else {
        DropPair(nodes, index, biflows, x);
        ghost var view := View(nodes, index);
        RemoveOne(x);
        RemoveOne(f.rflow.value);
        assert View(nodes, index) == view - {f.key} - {Reverse(f.key)};
        assert view - {f.key} - {Reverse(f.key)} == view - {f.key, Reverse(f.key)};
      }
    }
  }

  lemma SameIds(nodes: Nodes, x: nat, n: nat)
    requires x in nodes
    ensures forall z :: z in CountedNode(nodes, x, n) <==> z in nodes
  {
  }

  // ---------------------------------------------------------------- whole runs

  /** As many nodes as keys. */
  lemma {:induction false} OneNodeEach(list: seq<nat>, nodes: Nodes, index: map<Key, nat>)
    requires Listed(list, nodes) && Indexed(nodes, index)
    ensures |list| == |index|
    decreases |list|
  {
    if list == [] {
      assert forall k :: k !in index;
      assert index == map[];
    } else {
      var x := list[0];
      var k := nodes[x].key;
      assert x in list && list == [x] + list[1..];
      var less, rest := nodes - {x}, index - {k};
      assert forall y :: y in less <==> y in list[1..];
      OneNodeEach(list[1..], less, rest);
      assert rest.Keys == index.Keys - {k};
      assert |rest.Keys| == |index.Keys| - 1;
      assert |rest| == |rest.Keys| && |index| == |index.Keys|;
    }
  }

  lemma ViewKeys(nodes: Nodes, index: map<Key, nat>)
    requires Indexed(nodes, index)
    ensures forall k :: k in View(nodes, index) <==> k in index
    ensures |View(nodes, index)| == |index|
  {
    assert View(nodes, index).Keys == index.Keys;
    assert |View(nodes, index)| == |View(nodes, index).Keys| && |index| == |index.Keys|;
  }

  /** A packet of `n` bytes, with what the memory of the next new node holds, or the dropping of the flow of a key if
      there is one. */
  datatype Step = Packet(k: Key, n: nat, was: Memory) | DropFlow(k: Key)

  ghost function After(m: map<Key, Count>, step: Step, maxflows: nat, biflows: bool): map<Key, Count> {
    match step
    case Packet(k, n, _) => if k in m || |m| < maxflows then Counted(m, k, n) else m
    case DropFlow(k) => if k !in m then m else if biflows then m - {k, Reverse(k)} else m - {k}
  }

  /** What the cache is for: a map from keys to counts, of bounded size. */
  ghost function Expected(steps: seq<Step>, maxflows: nat, biflows: bool): map<Key, Count> {
    if steps == [] then map[] else
      After(Expected(steps[..|steps| - 1], maxflows, biflows), steps[|steps| - 1], maxflows, biflows)
  }

  /** The map has no other keys than the steps. */
  lemma {:induction false} ExpectedKeys(steps: seq<Step>, maxflows: nat, biflows: bool, keys: set<Key>)
    requires forall s :: s in steps ==> s.k in keys
    ensures Expected(steps, maxflows, biflows).Keys <= keys
    decreases |steps|
  {
    hide Reverse;
    if steps != [] {
      var n := |steps| - 1;
      assert steps[n] in steps;
      ExpectedKeys(steps[..n], maxflows, biflows, keys);
    }
  }

  lemma NodeKeys(nodes: Nodes, index: map<Key, nat>, chains: seq<seq<nat>>, keys: set<Key>)
    requires Indexed(nodes, index) && Chained(chains, nodes) && View(nodes, index).Keys <= keys
    ensures forall x :: x in nodes ==>
      nodes[x].key in keys && Stored(nodes[x]) && nodes[x].hash == HashOf(nodes[x].key, |chains|)
  {
    forall x | x in nodes ensures nodes[x].key in keys {
      KeyAt(nodes, index, nodes[x].key);
    }
  }

  /** Before each step of a run whose keys are apart: the step finds the flow of its key exactly when there is one, and
      a new flow would be linked with that of the reversed key only. */
  lemma StepIsClear(list: seq<nat>, chains: seq<seq<nat>>, nodes: Nodes, index: map<Key, nat>, keys: set<Key>,
                    maxflows: nat, biflows: bool, k: Key)
    requires Listed(list, nodes) && Chained(chains, nodes) && Indexed(nodes, index)
    requires GoodKeys(keys, biflows) && Apart(keys, CanLink(maxflows, biflows), |chains|) && k in keys
    requires View(nodes, index).Keys <= keys
    ensures WellFormed(k) && (biflows ==> k != Reverse(k))
    ensures Clear(k, nodes, |chains|)
    ensures FirstMet(chains[HashOf(k, |chains|)], nodes, k) == if k in index then Some(index[k]) else None
    ensures biflows && |list| < maxflows ==> Clear(Reverse(k), nodes, |chains|)
    ensures |list| == |View(nodes, index)| && (k in View(nodes, index) <==> k in index)
    ensures k in index ==> index[k] in nodes && nodes[index[k]].key == k
  {
    hide Met, HashOf, Stored, View, Reverse, WellFormed;
    OneNodeEach(list, nodes, index);
    ViewKeys(nodes, index);
    NodeKeys(nodes, index, chains, keys);
    ApartIsClear(keys, CanLink(maxflows, biflows), |chains|, nodes, k);
    LookupExact(chains, nodes, index, k);
    assert |list| == 0 ==> forall x :: x !in nodes;
  }

  /** Of two flows that are linked, the one that was there first is the initiator; so is every flow without a link.
      Nodes are numbered in the order they are made. A cache without links does not set the mark. */
  ghost predicate Initiated(nodes: Nodes) {
    forall x :: x in nodes ==> (nodes[x].initiator <==> !(nodes[x].rflow.Some? && nodes[x].rflow.value < x))
  }

  lemma SameChains(chains: seq<seq<nat>>, nodes: Nodes, after: Nodes)
    requires Chained(chains, nodes) && after.Keys == nodes.Keys
    requires forall x :: x in nodes ==>
      after[x].key == nodes[x].key && after[x].mem == nodes[x].mem && after[x].hash == nodes[x].hash
    ensures Chained(chains, after)
  {
    hide HashOf, Stored, NoDuplicates;
    assert forall x :: x in nodes ==> (Stored(after[x]) <==> Stored(nodes[x])) by {
      forall x | x in nodes ensures Stored(after[x]) <==> Stored(nodes[x]) {
        SameStored(nodes[x], after[x]);
      }
    }
  }

  lemma SameStored(f: Flow, g: Flow)
    requires f.key == g.key && f.mem == g.mem
    ensures Stored(f) <==> Stored(g)
  {
  }

  lemma InitiatedCounted(nodes: Nodes, x: nat, n: nat)
    requires Initiated(nodes) && x in nodes
    ensures Initiated(CountedNode(nodes, x, n))
  {
  }

  /** A new flow is linked with an older one that had no link. */
  lemma InitiatedLinked(nodes: Nodes, index: map<Key, nat>, k: Key, f: Flow, x: nat)
    requires Indexed(nodes, index) && Linked(nodes, index, true) && Initiated(nodes)
    requires (forall z :: z in nodes ==> z < x) && k !in index && k != Reverse(k) && Reverse(k) in index
    requires f.rflow == None && f.initiator
    ensures index[Reverse(k)] in nodes
    ensures Initiated(LinkBoth(nodes[x := f], x, index[Reverse(k)]))
  {
    var y := index[Reverse(k)];
    assert y in nodes && nodes[y].key == Reverse(k) && Reverse(Reverse(k)) == k;
  }

  lemma InitiatedNew(nodes: Nodes, index: map<Key, nat>, biflows: bool, k: Key, was: Memory, x: nat,
                     chains: seq<seq<nat>>, n: nat)
    requires Indexed(nodes, index) && Linked(nodes, index, biflows) && Initiated(nodes)
    requires (forall z :: z in nodes ==> z < x) && k !in index && WellFormed(k) && |chains| > 0
    requires biflows ==> k != Reverse(k) && Clear(Reverse(k), nodes, |chains|)
    requires var after := WithFlow(nodes, chains, biflows, k, was, x);
      x in after && Chained(chains, CountedNode(after, x, n))
    ensures Initiated(CountedNode(WithFlow(nodes, chains, biflows, k, was, x), x, n))
  {
    hide HashOf, Met, WellFormed, Stored, LinkAll, LinkBoth, Reverse, Indexed, Linked, Chained, Clear, Written;
    var f := NewNode(k, HashOf(k, |chains|), was);
    var one, back := nodes[x := f], Reverse(k);
    var after := WithFlow(nodes, chains, biflows, k, was, x);
    assert x !in nodes;
    if biflows {
      LinkAllKeeps(one, chains[HashOf(back, |chains|)], back, x);
      SameChains(chains, CountedNode(after, x, n), one);
      AddIndexed(nodes, index, x, f);
      StaysClear(nodes, k, was, x, |chains|);
      LinkExact(chains, one, index[k := x], back, x);
      if back in index {
        InitiatedLinked(nodes, index, k, f, x);
      }
    }
    InitiatedCounted(after, x, n);
  }

  /** A packet of a run, counted or not. */
  method TakePacket(cache: Cache, k: Key, n: nat, was: Memory, keys: set<Key>) returns (counted: Count)
    requires cache.Valid() && k in keys && View(cache.nodes, cache.index).Keys <= keys
    requires GoodKeys(keys, cache.biflows)
    requires Apart(keys, CanLink(cache.maxflows, cache.biflows), cache.hashtab.Length)
    modifies cache, cache.hashtab
    ensures cache.Valid() && cache.hashtab == old(cache.hashtab)
    ensures View(cache.nodes, cache.index)
      == After(old(View(cache.nodes, cache.index)), Packet(k, n, was), cache.maxflows, cache.biflows)
    ensures PacketSum(cache.list, cache.nodes) == old(PacketSum(cache.list, cache.nodes)) + counted.packets
    ensures OctetSum(cache.list, cache.nodes) == old(OctetSum(cache.list, cache.nodes)) + counted.octets
    ensures counted.packets <= 1
    ensures old(Initiated(cache.nodes)) ==> Initiated(cache.nodes)
  {
    hide Linked, Indexed, View, PacketSum, OctetSum, Listed, Chained, Reverse, Counted, WellFormed, HashOf,
      Stored, Apart, Clear, FirstMet, GoodKeys, Met, WithFlow, CountedNode, CanLink,
      Initiated;
    StepIsClear(cache.list, cache.hashtab[..], cache.nodes, cache.index, keys, cache.maxflows, cache.biflows, k);
    ghost var before, index := cache.nodes, cache.index;
    var r := cache.Update(k, n, was);
    if r.Some? && Initiated(before) {
      if k in index {
        InitiatedCounted(before, r.value, n);
      } else {
        InitiatedNew(before, index, cache.biflows, k, was, r.value, cache.hashtab[..], n);
      }
    }
    counted := if r.Some? then Count(1, n) else Count(0, 0);
  }

  /** The dropping of a flow in a run, if there is one. */
  method TakeDrop(cache: Cache, k: Key, keys: set<Key>) returns (dropped: Count)
    requires cache.Valid() && k in keys && View(cache.nodes, cache.index).Keys <= keys
    requires GoodKeys(keys, cache.biflows)
    requires Apart(keys, CanLink(cache.maxflows, cache.biflows), cache.hashtab.Length)
    modifies cache, cache.hashtab
    ensures cache.Valid() && cache.hashtab == old(cache.hashtab)
    ensures View(cache.nodes, cache.index)
      == After(old(View(cache.nodes, cache.index)), DropFlow(k), cache.maxflows, cache.biflows)
    ensures PacketSum(cache.list, cache.nodes) + dropped.packets == old(PacketSum(cache.list, cache.nodes))
    ensures OctetSum(cache.list, cache.nodes) + dropped.octets == old(OctetSum(cache.list, cache.nodes))
    ensures old(Initiated(cache.nodes)) ==> Initiated(cache.nodes)
  {
    hide Linked, Indexed, View, PacketSum, OctetSum, Listed, Chained, Reverse, Unlinked, WellFormed, HashOf,
      Stored, Apart, Clear, FirstMet, GoodKeys, Met, Partner, CountAt, CanLink;
    StepIsClear(cache.list, cache.hashtab[..], cache.nodes, cache.index, keys, cache.maxflows, cache.biflows, k);
    dropped := Count(0, 0);
    var hash := CalcHash(k, cache.hashtab.Length);
    var r := cache.Lookup(k, hash);
    if r.Some? {
      var f := cache.nodes[r.value];
      var g := CountAt(cache.nodes, f.rflow);
      cache.Drop(r.value);
      dropped := Count(f.packets + g.packets, f.octets + g.octets);
    }
  }

  /** For every run whose keys are apart, the cache holds what the bounded map holds, and its links are those between
      flows of mutually reversed keys. Every packet and byte counted is either in a flow of the list or was in one that
      has been dropped. */
  method Run(maxflows: nat, biflows: bool, hashsize: nat, steps: seq<Step>, keys: set<Key>)
    returns (cache: Cache, counted: Count, dropped: Count)
    requires hashsize > 0 && GoodKeys(keys, biflows) && Apart(keys, CanLink(maxflows, biflows), hashsize)
    requires forall s :: s in steps ==> s.k in keys
    ensures fresh(cache) && cache.Valid() && cache.biflows == biflows
    ensures biflows ==> Initiated(cache.nodes)
    ensures View(cache.nodes, cache.index) == Expected(steps, cache.maxflows, biflows)
    ensures Held(View(cache.nodes, cache.index)) == ExpectedInts(steps, cache.maxflows, biflows)
    ensures PacketSum(cache.list, cache.nodes) + dropped.packets == counted.packets <= |steps|
    ensures OctetSum(cache.list, cache.nodes) + dropped.octets == counted.octets
  {
    hide Linked, Indexed, View, PacketSum, OctetSum, Listed, Chained, Apart, GoodKeys, After, Held, IntsAfter, Initiated;
    cache := new Cache(maxflows, biflows, hashsize);
    NoneInitiated();
    counted, dropped := Count(0, 0), Count(0, 0);
    Nothing(cache.list, cache.nodes, cache.index);
    var i := 0;
    while i < |steps|
      invariant i <= |steps| && fresh(cache) && fresh(cache.hashtab) && cache.Valid() && cache.biflows == biflows
      invariant cache.hashtab.Length == hashsize && cache.maxflows == if maxflows == 0 then 5000 else maxflows
      invariant View(cache.nodes, cache.index) == Expected(steps[..i], cache.maxflows, biflows)
      invariant Initiated(cache.nodes)
      invariant forall x :: x in cache.list ==> x in cache.nodes
      invariant PacketSum(cache.list, cache.nodes) + dropped.packets == counted.packets <= i
      invariant OctetSum(cache.list, cache.nodes) + dropped.octets == counted.octets
    {
      assert steps[i] in steps && steps[..i + 1][..i] == steps[..i];
      ExpectedKeys(steps[..i], cache.maxflows, biflows, keys);
      match steps[i] {
        case Packet(k, n, was) =>
          var c := TakePacket(cache, k, n, was, keys);
          counted := Count(counted.packets + c.packets, counted.octets + c.octets);
        case DropFlow(k) =>
          var d := TakeDrop(cache, k, keys);
          dropped := Count(dropped.packets + d.packets, dropped.octets + d.octets);
      }
      ListedMembers(cache.list, cache.nodes);
      i := i + 1;
    }
    assert steps[..i] == steps;
    IntsHoldCounts(steps, cache.maxflows, biflows);
  }

  // ---------------------------------------------------------------- counts in C ints

  /** What a 32-bit int holds of a number. */
  function CInt(n: int): (c: int)
    ensures -0x8000_0000 <= c < 0x8000_0000
  {
    (n + 0x8000_0000) % 0x1_0000_0000 - 0x8000_0000
  }

  datatype IntCount = IntCount(packets: int, octets: int)

  ghost function Held(m: map<Key, Count>): map<Key, IntCount> {
    map k | k in m :: IntCount(CInt(m[k].packets), CInt(m[k].octets))
  }

  /** The same steps, with the sums taken in ints. */
  ghost function IntsAfter(m: map<Key, IntCount>, step: Step, maxflows: nat, biflows: bool): map<Key, IntCount> {
    match step
    case Packet(k, n, _) =>
      if k in m then m[k := IntCount(CInt(m[k].packets + 1), CInt(m[k].octets + n))]
      else if |m| < maxflows then m[k := IntCount(CInt(1), CInt(n))] else m
    case DropFlow(k) => if k !in m then m else if biflows then m - {k, Reverse(k)} else m - {k}
  }

  ghost function ExpectedInts(steps: seq<Step>, maxflows: nat, biflows: bool): map<Key, IntCount> {
    if steps == [] then map[] else
      IntsAfter(ExpectedInts(steps[..|steps| - 1], maxflows, biflows), steps[|steps| - 1], maxflows, biflows)
  }

  lemma CIntAdds(n: int, m: int)
    ensures CInt(CInt(n) + m) == CInt(n + m)
  {
    var q := (n + 0x8000_0000) / 0x1_0000_0000;
    assert CInt(n) == n - 0x1_0000_0000 * q;
    assert (n + m + 0x8000_0000 - 0x1_0000_0000 * q) % 0x1_0000_0000 == (n + m + 0x8000_0000) % 0x1_0000_0000;
  }

  lemma HeldIsAs(m: map<Key, Count>)
    ensures Held(m).Keys == m.Keys && |Held(m)| == |m|
  {
    assert Held(m).Keys == m.Keys;
    assert |Held(m)| == |Held(m).Keys| && |m| == |m.Keys|;
  }

  lemma HeldAfter(m: map<Key, Count>, step: Step, maxflows: nat, biflows: bool)
    ensures IntsAfter(Held(m), step, maxflows, biflows) == Held(After(m, step, maxflows, biflows))
  {
    hide CInt, Reverse;
    HeldIsAs(m);
    if step.Packet? && step.k in m {
      CIntAdds(m[step.k].packets, 1);
      CIntAdds(m[step.k].octets, step.n);
    }
  }

  /** After every run, the ints hold the counts modulo 2^32. They are the counts as long as these are below 2^31. */
  lemma {:induction false} IntsHoldCounts(steps: seq<Step>, maxflows: nat, biflows: bool)
    ensures ExpectedInts(steps, maxflows, biflows) == Held(Expected(steps, maxflows, biflows))
    decreases |steps|
  {
    hide IntsAfter, After;
    if steps == [] {
      assert Held(map[]) == map[];
    } else {
      var n := |steps| - 1;
      IntsHoldCounts(steps[..n], maxflows, biflows);
      HeldAfter(Expected(steps[..n], maxflows, biflows), steps[n], maxflows, biflows);
    }
  }

  /** An int is the number exactly when that is below 2^31. */
  lemma IntIsCountIff(n: nat)
    ensures CInt(n) == n <==> n < 0x8000_0000
  {
  }

  // ---------------------------------------------------------------- keys that are not apart

  /** The cache after the first packet. */
  method First(maxflows: nat, biflows: bool, hashsize: nat, k: Key, n: nat, was: Memory) returns (cache: Cache, x: nat)
    requires hashsize > 0 && WellFormed(k) && (biflows ==> k != Reverse(k))
    ensures fresh(cache) && fresh(cache.hashtab) && cache.Valid() && cache.biflows == biflows
    ensures cache.hashtab.Length == hashsize && cache.maxflows == if maxflows == 0 then 5000 else maxflows
    ensures cache.index == map[k := x] && cache.list == [x] && cache.nodes.Keys == {x}
    ensures cache.nodes[x].key == k && cache.nodes[x].mem == Written(k, was) && cache.nodes[x].hash == HashOf(k, hashsize)
    ensures View(cache.nodes, cache.index) == map[k := Count(1, n)]
  {
    hide Linked, Indexed, View, PacketSum, OctetSum, Listed, Chained, WellFormed, HashOf, Stored, LinkAll;
    cache := new Cache(maxflows, biflows, hashsize);
    Nothing(cache.list, cache.nodes, cache.index);
    ghost var chains := cache.hashtab[..];
    LookupExact(chains, cache.nodes, cache.index, k);
    var r := cache.Update(k, n, was);
    x := r.value;
    ghost var one: Nodes := map[x := NewNode(k, HashOf(k, hashsize), was)];
    LinkAllKeeps(one, cache.hashtab[HashOf(Reverse(k), hashsize)], Reverse(k), x);
  }

  /** Which flow a packet meets when there is one flow. */
  lemma OneFlowMet(chains: seq<seq<nat>>, nodes: Nodes, x: nat, k: Key)
    requires Chained(chains, nodes) && nodes.Keys == {x} && WellFormed(k)
    ensures FirstMet(chains[HashOf(k, |chains|)], nodes, k)
      == if nodes[x].hash == HashOf(k, |chains|) && Met(k, nodes[x]) then Some(x) else None
  {
    hide HashOf, Met, Stored, WellFormed;
    var chain := chains[HashOf(k, |chains|)];
    FirstMetIsMet(chain, nodes, k);
    assert x in nodes;
  }

  /** A short key and a long one that meet: there is a run of two packets after which the cache has one flow with both,
      and not what the bounded map holds. */
  method Merge(maxflows: nat, biflows: bool, hashsize: nat, a: Key, b: Key, n: nat, m: nat, was: Memory)
    returns (cache: Cache, steps: seq<Step>)
    requires hashsize > 0 && GoodKeys({a, b}, biflows) && Meets(a, b, hashsize)
    ensures steps == [Packet(b, n, was), Packet(a, m, was)]
    ensures fresh(cache) && cache.Consistent()
    ensures View(cache.nodes, cache.index) == map[b := Count(2, n + m)]
    ensures View(cache.nodes, cache.index) != Expected(steps, cache.maxflows, biflows)
  {
    hide Linked, Indexed, View, PacketSum, OctetSum, Listed, Chained, Reverse, WellFormed, HashOf, Stored, Clear, FirstMet,
      Expected, Met, Written, WithFlow, CountedNode, Counted, GoodKeys, Meets;
    GoodPair(a, b, biflows);
    steps := [Packet(b, n, was), Packet(a, m, was)];
    var x: nat;
    cache, x := First(maxflows, biflows, hashsize, b, n, was);
    LongIsMet(a, b, hashsize, was, cache.nodes[x]);
    OneFlowMet(cache.hashtab[..], cache.nodes, x, a);
    assert cache.Meeting(a) == Some(x);
    var r := cache.Update(a, m, was);
    TwoExpected(b, a, n, m, was, cache.maxflows, biflows);
    MergedView(a, b, n, m);
  }

  lemma MergedView(a: Key, b: Key, n: nat, m: nat)
    requires a != b
    ensures var v := Counted(map[b := Count(1, n)], b, m);
      v == map[b := Count(2, n + m)] && v != map[b := Count(1, n), a := Count(1, m)] && v != map[b := Count(1, n)]
  {
    var v := Counted(map[b := Count(1, n)], b, m);
    assert v[b] == Count(2, n + m);
  }

  /** What the bounded map holds after two packets with different keys. */
  lemma TwoExpected(a: Key, b: Key, n: nat, m: nat, was: Memory, maxflows: nat, biflows: bool)
    requires a != b && maxflows > 0
    ensures Expected([Packet(a, n, was), Packet(b, m, was)], maxflows, biflows)
      == if maxflows > 1 then map[a := Count(1, n), b := Count(1, m)] else map[a := Count(1, n)]
  {
    var steps := [Packet(a, n, was), Packet(b, m, was)];
    assert steps[..1] == [Packet(a, n, was)] && steps[..1][..0] == [];
    assert Expected(steps[..1], maxflows, biflows) == map[a := Count(1, n)];
  }

  /** Linking the second flow of two with the first. */
  lemma LinkSecond(chains: seq<seq<nat>>, nodes: Nodes, k: Key, was: Memory, x: nat, y: nat, n: nat)
    requires x in nodes && y !in nodes && WellFormed(k) && k != Reverse(k) && |chains| > 0
    requires var back := Reverse(k); Met(back, nodes[x]) && nodes[x].hash == HashOf(back, |chains|)
    requires nodes.Keys == {x}
    requires var after := WithFlow(nodes, chains, true, k, was, y); y in after && Chained(chains, CountedNode(after, y, n))
    ensures var after := WithFlow(nodes, chains, true, k, was, y);
      x in after && y in after && after[x].rflow == Some(y) && after[y].rflow == Some(x)
  {
    hide HashOf, Met, WellFormed, Stored, LinkAll, Reverse;
    var back := Reverse(k);
    var f := NewNode(k, HashOf(k, |chains|), was);
    var one := nodes[y := f];
    var h := HashOf(back, |chains|);
    LinkAllKeeps(one, chains[h], back, y);
    NotSelfMet(k, f.hash, was);
    ghost var last := CountedNode(LinkAll(one, chains[h], back, y), y, n);
    assert x in last && LinkOnly(one[x], last[x]) && last[x].hash == h;
    LinkAllOne(one, chains[h], back, y, x);
  }

  /** Two keys of which one's reverse meets the other's flow without being its key: there is a run of two packets
      after which the two flows are linked, though neither key is the reverse of the other. */
  method WrongLink(maxflows: nat, hashsize: nat, first: Key, second: Key, n: nat, m: nat)
    returns (cache: Cache, steps: seq<Step>)
    requires hashsize > 0 && GoodKeys({first, second}, true) && CanLink(maxflows, true)
    requires !Meets(first, second, hashsize) && !Meets(second, first, hashsize)
    requires ReverseMet(first, second, hashsize)
    ensures var was := ReverseBytes(second); steps == [Packet(first, n, was), Packet(second, m, was)]
    ensures fresh(cache) && cache.Consistent()
    ensures View(cache.nodes, cache.index) == Expected(steps, cache.maxflows, true)
    ensures first in cache.index && second in cache.index && second != Reverse(first)
    ensures var x, y := cache.index[first], cache.index[second];
      && x in cache.nodes && y in cache.nodes
      && cache.nodes[x].rflow == Some(y) && cache.nodes[y].rflow == Some(x)
    ensures !Linked(cache.nodes, cache.index, true)
  {
    hide Linked, Indexed, View, PacketSum, OctetSum, Listed, Chained, WellFormed, HashOf, Stored, Clear, FirstMet,
      Expected, Met, Written, WithFlow, Meets, GoodKeys, ReverseBytes, ReverseMet, Reverse;
    GoodPair(first, second, true);
    var was := ReverseBytes(second);
    steps := [Packet(first, n, was), Packet(second, m, was)];
    var x: nat;
    cache, x := First(maxflows, true, hashsize, first, n, was);
    ReverseIsMet(first, second, hashsize, cache.nodes[x]);
    OneFlowMet(cache.hashtab[..], cache.nodes, x, second);
    NodeFacts(cache.hashtab[..], cache.nodes, x);
    MetOnlyIf(second, cache.nodes[x], hashsize);
    assert cache.Meeting(second) == None;
    ghost var before := cache.nodes;
    var r := cache.Update(second, m, was);
    LinkSecond(cache.hashtab[..], before, second, was, x, r.value, m);
    TwoExpected(first, second, n, m, was, cache.maxflows, true);
    KeyAt(cache.nodes, cache.index, second);
    NotLinked(cache.nodes, cache.index, r.value);
  }

  lemma NodeFacts(chains: seq<seq<nat>>, nodes: Nodes, x: nat)
    requires Chained(chains, nodes) && x in nodes
    ensures Stored(nodes[x]) && nodes[x].hash == HashOf(nodes[x].key, |chains|)
  {
  }

  /** A link where the reversed key is not in the cache. */
  lemma NotLinked(nodes: Nodes, index: map<Key, nat>, x: nat)
    requires x in nodes && nodes[x].rflow.Some? && Reverse(nodes[x].key) !in index
    ensures !Linked(nodes, index, true)
  {
  }

  lemma NoneInitiated()
    ensures Initiated(map[])
  {
  }

  lemma Nothing(list: seq<nat>, nodes: Nodes, index: map<Key, nat>)
    requires Listed(list, nodes) && Indexed(nodes, index) && index == map[]
    ensures View(nodes, index) == map[] && list == [] && PacketSum(list, nodes) == 0 == OctetSum(list, nodes)
  {
    OneNodeEach(list, nodes, index);
  }
}
