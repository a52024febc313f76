/** What ipflow.c tells flows apart by: the header elements, their hash, and a comparison that depends on the version of
    the packet only. */
module FlowKeys {
  import opened Bytes
  import opened Options

  /** The header elements that tell flows apart. Addresses have 16 bytes in version 6 and 4 otherwise. */
  datatype Key = Key(saddr: bytes, daddr: bytes, sport: nat, dport: nat, protocol: nat, tos: nat)

  type Block = s: bytes | |s| == 16 witness [0, 0, 0, 0, 0, 0, 0, 0, 0, 0, 0, 0, 0, 0, 0, 0]

  /** The room of a node for the two addresses. */
  datatype Memory = Memory(s: Block, d: Block)

  datatype Flow = Flow(key: Key, mem: Memory, hash: nat, rflow: Option<nat>, initiator: bool, packets: nat, octets: nat)

  predicate WellFormed(k: Key) {
    && (|k.saddr| == 4 || |k.saddr| == 16) && |k.daddr| == |k.saddr|
    && k.sport < 0x1_0000 && k.dport < 0x1_0000 && k.protocol < 256 && k.tos < 256
  }

  function Reverse(k: Key): (r: Key)
    ensures WellFormed(k) ==> WellFormed(r)
  {
    Key(k.daddr, k.saddr, k.dport, k.sport, k.protocol, k.tos)
  }

  // ---------------------------------------------------------------- hashing

  /** The sum of 16-bit words of the source address, and of the destination address with its bytes swapped. */
  function WordSum(saddr: bytes, daddr: bytes): nat
    requires |saddr| == |daddr| && |saddr| % 2 == 0
  {
    if saddr == [] then 0 else
      var n := |saddr| - 2;
      WordSum(saddr[..n], daddr[..n])
      + (saddr[n] as int * 256 + saddr[n + 1]) + (daddr[n + 1] as int * 256 + daddr[n])
  }

  function HashOf(k: Key, size: nat): (h: nat)
    requires WellFormed(k) && size > 0
    ensures h < size
  {
    (WordSum(k.saddr, k.daddr) + k.sport + k.dport + k.protocol + k.tos) % size
  }

  lemma WordSumStep(saddr: bytes, daddr: bytes, i: nat)
    requires |saddr| == |daddr| && |saddr| % 2 == 0 && i % 2 == 0 && i + 2 <= |saddr|
    ensures WordSum(saddr[..i + 2], daddr[..i + 2]) ==
      WordSum(saddr[..i], daddr[..i])
      + (saddr[i] as int * 256 + saddr[i + 1]) + (daddr[i + 1] as int * 256 + daddr[i])
  {
    assert saddr[..i + 2][..i] == saddr[..i] && daddr[..i + 2][..i] == daddr[..i];
  }

  /** The sum stays far below 2^32, so the 32-bit arithmetic does not wrap. */
  method CalcHash(k: Key, size: nat) returns (hash: nat)
    requires WellFormed(k) && size > 0
    ensures hash == HashOf(k, size) < size
  {
    assert WordSum([], []) == 0;
    hide WordSum;
    var id, i := 0, 0;
    assert k.saddr[..0] == [] && k.daddr[..0] == [];
    while i < |k.saddr|
      invariant 0 <= i <= |k.saddr| && i % 2 == 0
      invariant id == WordSum(k.saddr[..i], k.daddr[..i]) <= i * 0xFFFF
    {
      WordSumStep(k.saddr, k.daddr, i);
      id := id + (k.saddr[i] as int * 256 + k.saddr[i + 1]);
      id := id + (k.daddr[i + 1] as int * 256 + k.daddr[i]);
      i := i + 2;
    }
    assert k.saddr[..i] == k.saddr && k.daddr[..i] == k.daddr;
    id := id + (k.sport + k.dport + k.protocol + k.tos);
    assert id < 0x1_0000_0000;
    hash := id % size;
  }

  // ---------------------------------------------------------------- comparing

  /** The addresses are copied over what the node held. Behind a short address the old bytes stay. */
  function Written(k: Key, was: Memory): (m: Memory)
    requires WellFormed(k)
    ensures k.saddr <= m.s && k.daddr <= m.d
  {
    Memory(k.saddr + was.s[|k.saddr|..], k.daddr + was.d[|k.daddr|..])
  }

  predicate Stored(f: Flow) {
    WellFormed(f.key) && f.key.saddr <= f.mem.s && f.key.daddr <= f.mem.d
  }

  predicate SameNumbers(k: Key, l: Key) {
    k.sport == l.sport && k.dport == l.dport && k.protocol == l.protocol && k.tos == l.tos
  }

  /** The comparison of a packet with a flow: as many bytes of the addresses as the packet's version has, and the
      flow's version is not looked at. */
  predicate Met(k: Key, f: Flow) {
    SameNumbers(k, f.key) && k.saddr <= f.mem.s && k.daddr <= f.mem.d
  }

  /** A short key and a long one that can be taken for each other. */
  predicate Meets(short: Key, long: Key, size: nat)
    requires WellFormed(short) && WellFormed(long) && size > 0
  {
    && |short.saddr| == 4 && |long.saddr| == 16
    && short.saddr <= long.saddr && short.daddr <= long.daddr
    && SameNumbers(short, long)
    && HashOf(short, size) == HashOf(long, size)
  }

  /** A packet meets the flow of its key. It meets another only where a short and a long key meet. */
  lemma MetOnlyIf(k: Key, f: Flow, size: nat)
    requires WellFormed(k) && Stored(f) && size > 0 && f.hash == HashOf(f.key, size)
    ensures f.key == k ==> Met(k, f)
    ensures Met(k, f) && f.hash == HashOf(k, size) ==> f.key == k || Meets(k, f.key, size) || Meets(f.key, k, size)
  {
    hide HashOf;
    if Met(k, f) && |k.saddr| == |f.key.saddr| {
      assert k.saddr == f.mem.s[..|k.saddr|] == f.key.saddr;
      assert k.daddr == f.mem.d[..|k.daddr|] == f.key.daddr;
    }
  }

  /** A flow that has just been made for a short key where the memory held the long one meets it. */
  lemma StaleBytesMeet(short: Key, long: Key, size: nat, f: Flow)
    requires WellFormed(short) && WellFormed(long) && size > 0 && Meets(short, long, size)
    requires f.key == short && f.mem == Written(short, Memory(long.saddr, long.daddr))
    ensures Met(long, f)
  {
    assert f.mem.s == long.saddr && f.mem.d == long.daddr;
  }

  /** No key of `keys` meets another one; where flows can be linked, no reversed key does either. */
  ghost predicate Apart(keys: set<Key>, links: bool, size: nat)
    requires size > 0 && forall k :: k in keys ==> WellFormed(k)
  {
    forall a, b :: a in keys && b in keys ==>
      !Meets(a, b, size) && (links ==> !Meets(Reverse(a), b, size) && !Meets(a, Reverse(b), size))
  }

  /** Keys that packets can have, none of which is its own reverse where links are kept. */
  ghost predicate GoodKeys(keys: set<Key>, biflows: bool) {
    forall k :: k in keys ==> WellFormed(k) && (biflows ==> k != Reverse(k))
  }

  /** Links are kept and there is room for two flows. */
  predicate CanLink(maxflows: nat, biflows: bool) {
    biflows && maxflows != 1
  }

  // ---------------------------------------------------------------- keys that meet

  /** Keys of one address length are apart. */
  lemma OneVersionIsApart(keys: set<Key>, links: bool, size: nat)
    requires size > 0 && forall k :: k in keys ==> WellFormed(k)
    requires forall a, b :: a in keys && b in keys ==> |a.saddr| == |b.saddr|
    ensures Apart(keys, links, size)
  {
  }

  lemma {:induction false} ZerosAddNothing(saddr: bytes, daddr: bytes, z: bytes)
    requires |saddr| == |daddr| && |saddr| % 2 == 0 && |z| % 2 == 0 && forall c :: c in z ==> c == 0
    ensures WordSum(saddr + z, daddr + z) == WordSum(saddr, daddr)
    decreases |z|
  {
    if z == [] {
      assert saddr + z == saddr && daddr + z == daddr;
    } else {
      var n := |z| - 2;
      assert z[n] in z && z[n + 1] in z;
      assert (saddr + z)[..|saddr| + n] == saddr + z[..n] && (daddr + z)[..|daddr| + n] == daddr + z[..n];
      assert forall c :: c in z[..n] ==> c in z;
      ZerosAddNothing(saddr, daddr, z[..n]);
    }
  }

  /** With any short key there is a long one that it meets: its addresses, and zeros behind them. */
  lemma ShortMeetsZeros(k: Key, z: bytes, size: nat)
    requires WellFormed(k) && |k.saddr| == 4 && size > 0
    requires |z| == 12 && forall c :: c in z ==> c == 0
    ensures var long := k.(saddr := k.saddr + z, daddr := k.daddr + z);
      WellFormed(long) && Meets(k, long, size)
  {
    hide WordSum;
    ZerosAddNothing(k.saddr, k.daddr, z);
  }

  /** A short key meets the flow of a long one. */
  lemma LongIsMet(short: Key, long: Key, size: nat, was: Memory, f: Flow)
    requires size > 0 && WellFormed(short) && WellFormed(long) && Meets(short, long, size)
    requires f.key == long && f.mem == Written(long, was)
    ensures Met(short, f) && HashOf(short, size) == HashOf(long, size) && short != long
  {
    hide HashOf;
    assert f.mem.s == long.saddr && f.mem.d == long.daddr;
  }

  /** The reversed key of `second` meets a flow of `first`, if the memory of that held the right bytes. */
  predicate ReverseMet(first: Key, second: Key, size: nat)
    requires size > 0 && WellFormed(first) && WellFormed(second)
  {
    Meets(Reverse(second), first, size) || Meets(first, Reverse(second), size)
  }

  /** The bytes that `second` is sent to, and comes from. */
  function ReverseBytes(second: Key): Memory {
    if |second.saddr| == 16 == |second.daddr| then Memory(second.daddr, second.saddr)
    else Memory([0, 0, 0, 0, 0, 0, 0, 0, 0, 0, 0, 0, 0, 0, 0, 0], [0, 0, 0, 0, 0, 0, 0, 0, 0, 0, 0, 0, 0, 0, 0, 0])
  }

  lemma ReverseIsMet(first: Key, second: Key, size: nat, f: Flow)
    requires size > 0 && WellFormed(first) && WellFormed(second) && ReverseMet(first, second, size)
    requires f.key == first && f.mem == Written(first, ReverseBytes(second)) && f.hash == HashOf(first, size)
    ensures Met(Reverse(second), f) && f.hash == HashOf(Reverse(second), size) && first != second
    ensures second != Reverse(first) && Reverse(second) != first
  {
    hide HashOf;
    if Meets(Reverse(second), first, size) {
      LongIsMet(Reverse(second), first, size, ReverseBytes(second), f);
    } else {
      StaleBytesMeet(first, Reverse(second), size, f);
    }
  }

  lemma GoodPair(a: Key, b: Key, biflows: bool)
    requires GoodKeys({a, b}, biflows)
    ensures WellFormed(a) && WellFormed(b) && (biflows ==> a != Reverse(a) && b != Reverse(b))
  {
    assert a in {a, b} && b in {a, b};
  }

  // ---------------------------------------------------------------- the hash by its bytes

  /** The sum for four-byte addresses: the two words of the source with the high byte first, those of the destination
      with the low byte first, and the numbers. */
  lemma ShortHash(k: Key, size: nat)
    requires WellFormed(k) && |k.saddr| == 4 && size > 0
    ensures var s, d := k.saddr, k.daddr;
      HashOf(k, size) == ((s[0] as int * 256 + s[1]) + (s[2] as int * 256 + s[3])
                          + (d[0] as int + d[1] as int * 256) + (d[2] as int + d[3] as int * 256)
                          + k.sport + k.dport + k.protocol + k.tos) % size
  {
    var s, d := k.saddr, k.daddr;
    WordSumStep(s, d, 2);
    WordSumStep(s, d, 0);
    assert s[..4] == s && d[..4] == d && s[..0] == [] && d[..0] == [];
    assert WordSum([], []) == 0;
  }
}
