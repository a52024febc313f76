/** Bytes, and unsigned and two's complement big-endian integers of a given width. */
module Bytes {

  type byte = b: int | 0 <= b < 256 witness 0
  type bytes = seq<byte>

  lemma Associative(a: bytes, b: bytes, c: bytes)
    ensures a + b + c == a + (b + c)
  {
  }

  function Pow256(k: nat): (p: nat)
    ensures p > 0
  {
    if k == 0 then 1 else 256 * Pow256(k - 1)
  }

  /** The low `k` bytes of `n` in two's complement, most significant first. Division and remainder
      by a positive number round down, so this is what shifting and masking give for negative `n` too. */
  function BigEndian(n: int, k: nat): (s: bytes)
    ensures |s| == k
    decreases k
  {
    if k == 0 then [] else BigEndian(n / 256, k - 1) + [n % 256]
  }

  /** The unsigned value of a big-endian byte string. */
  function Unsigned(s: bytes): (n: nat)
  {
    if s == [] then 0 else 256 * Unsigned(s[..|s| - 1]) + s[|s| - 1]
  }

  /** The two's complement value of a big-endian byte string. */
  function Signed(s: bytes): (n: int)
  {
    if 2 * Unsigned(s) >= Pow256(|s|) then Unsigned(s) - Pow256(|s|) else Unsigned(s)
  }

  /** Reading back `k` bytes gives the number modulo 256^k. */
  lemma {:induction false} BigEndianUnsigned(n: int, k: nat)
    requires 0 <= n + Pow256(k) && n < Pow256(k)
    ensures Unsigned(BigEndian(n, k)) == if n < 0 then n + Pow256(k) else n
    decreases k
  {
    if k > 0 {
      var s := BigEndian(n, k);
      assert s[..k - 1] == BigEndian(n / 256, k - 1);
      BigEndianUnsigned(n / 256, k - 1);
    }
  }

  lemma BigEndianSigned(n: int, k: nat)
    requires 0 <= 2 * n + Pow256(k) && 2 * n < Pow256(k)
    ensures Signed(BigEndian(n, k)) == n
  {
    BigEndianUnsigned(n, k);
  }

  lemma Widths()
    ensures Pow256(1) == 0x100
    ensures Pow256(2) == 0x1_0000
    ensures Pow256(4) == 0x1_0000_0000
    ensures Pow256(8) == 0x1_0000_0000_0000_0000
  {
    assert Pow256(1) == 256 * Pow256(0);
    assert Pow256(2) == 256 * Pow256(1);
    assert Pow256(3) == 256 * Pow256(2);
    assert Pow256(4) == 256 * Pow256(3);
    assert Pow256(5) == 256 * Pow256(4);
    assert Pow256(6) == 256 * Pow256(5);
    assert Pow256(7) == 256 * Pow256(6);
    assert Pow256(8) == 256 * Pow256(7);
  }

  /** The bytes a program writes with shifts and masks, for the widths in use. */
  lemma BigEndianBytes(n: int)
    ensures BigEndian(n, 1) == [n % 256]
    ensures BigEndian(n, 2) == [n / 0x100 % 256, n % 256]
    ensures BigEndian(n, 4) == [n / 0x100_0000 % 256, n / 0x1_0000 % 256, n / 0x100 % 256, n % 256]
  {
    assert BigEndian(n / 0x100_0000, 1) == BigEndian(n / 0x100_0000 / 256, 0) + [n / 0x100_0000 % 256];
    assert n / 0x1_0000 / 256 == n / 0x100_0000;
    assert BigEndian(n / 0x1_0000, 2) == BigEndian(n / 0x100_0000, 1) + [n / 0x1_0000 % 256];
    assert n / 0x100 / 256 == n / 0x1_0000;
    assert BigEndian(n / 0x100, 3) == BigEndian(n / 0x1_0000, 2) + [n / 0x100 % 256];
    assert BigEndian(n, 4) == BigEndian(n / 0x100, 3) + [n % 256];
    assert BigEndian(n / 0x100, 1) == BigEndian(n / 0x100 / 256, 0) + [n / 0x100 % 256];
    assert BigEndian(n, 2) == BigEndian(n / 0x100, 1) + [n % 256];
    assert BigEndian(n, 1) == BigEndian(n / 256, 0) + [n % 256];
  }

  lemma BigEndianBytes8(n: int)
    ensures BigEndian(n, 8) == BigEndian(n / 0x1_0000_0000, 4) + BigEndian(n, 4)
  {
    var a, b, c := n / 0x100, n / 0x1_0000, n / 0x100_0000;
    assert a / 256 == b && b / 256 == c && c / 256 == n / 0x1_0000_0000;
    var h := BigEndian(n / 0x1_0000_0000, 4);
    assert BigEndian(c, 5) == h + [c % 256];
    assert BigEndian(b, 6) == BigEndian(c, 5) + [b % 256];
    assert BigEndian(a, 7) == BigEndian(b, 6) + [a % 256];
    assert BigEndian(n, 8) == BigEndian(a, 7) + [n % 256];
    BigEndianBytes(n);
    assert BigEndian(n, 4) == [c % 256, b % 256, a % 256, n % 256];
  }

  /** The two-byte and four-byte reads that programs write out with shifts. */
  lemma UnsignedBytes(s: bytes)
    ensures |s| == 1 ==> Unsigned(s) == s[0]
    ensures |s| == 2 ==> Unsigned(s) == s[0] as int * 0x100 + s[1]
    ensures |s| == 4 ==> Unsigned(s) == s[0] as int * 0x100_0000 + s[1] as int * 0x1_0000 + s[2] as int * 0x100 + s[3]
  {
    if 0 < |s| {
      var n := |s|;
      assert Unsigned(s) == 256 * Unsigned(s[..n - 1]) + s[n - 1];
      if 1 < n {
        assert s[..n - 1][..n - 2] == s[..n - 2];
        assert Unsigned(s[..n - 1]) == 256 * Unsigned(s[..n - 2]) + s[n - 2];
        if 2 < n {
          assert s[..n - 2][..n - 3] == s[..n - 3];
          assert Unsigned(s[..n - 2]) == 256 * Unsigned(s[..n - 3]) + s[n - 3];
          if 3 < n {
            assert s[..n - 3][..n - 4] == s[..n - 4];
            assert Unsigned(s[..n - 3]) == 256 * Unsigned(s[..n - 4]) + s[n - 4];
          }
        }
      }
    }
  }

  lemma UnsignedBytes8(s: bytes)
    requires |s| == 8
    ensures Unsigned(s) == Unsigned(s[..4]) * 0x1_0000_0000 + Unsigned(s[4..])
  {
    var t := s[4..];
    assert s[..7][..6] == s[..6] && s[..6][..5] == s[..5] && s[..5][..4] == s[..4];
    assert t[..3][..2] == t[..2] && t[..2][..1] == t[..1] && t[..1][..0] == [];
    assert Unsigned(s[..5]) == 256 * Unsigned(s[..4]) + t[0];
    assert Unsigned(s[..6]) == 256 * Unsigned(s[..5]) + t[1];
    assert Unsigned(s[..7]) == 256 * Unsigned(s[..6]) + t[2];
    UnsignedBytes(t);
  }

  /** Two bytes, four bytes and eight bytes of a number as programs write them with shifts and masks. */
  function Low16(n: int): (s: bytes)
    ensures s == BigEndian(n, 2)
  {
    BigEndianBytes(n);
    [n / 0x100 % 256, n % 256]
  }

  function Low32(n: int): (s: bytes)
    ensures s == BigEndian(n, 4)
  {
    BigEndianBytes(n);
    [n / 0x100_0000 % 256, n / 0x1_0000 % 256, n / 0x100 % 256, n % 256]
  }

  function Low64(n: int): (s: bytes)
    ensures s == BigEndian(n, 8)
  {
    BigEndianBytes8(n);
    Low32(n / 0x1_0000_0000) + Low32(n)
  }

  /** The first byte is the highest. */
  lemma {:induction false} UnsignedFirst(s: bytes)
    requires s != []
    ensures Unsigned(s) == s[0] as int * Pow256(|s| - 1) + Unsigned(s[1..])
    ensures Unsigned(s) < Pow256(|s|)
    decreases |s|
  {
    hide Pow256;
    var n := |s| - 1;
    if n == 0 {
      assert s[..0] == [] && s[1..] == [];
      assert Pow256(0) == 1 && Pow256(1) == 256 by { OneMore(0); }
    } else {
      UnsignedFirst(s[..n]);
      assert s[..n][1..] == s[1..][..n - 1] && s[1..][n - 1] == s[n];
      assert Unsigned(s[1..]) == 256 * Unsigned(s[..n][1..]) + s[n];
      OneMore(n - 1);
      OneMore(n);
      TimesMoved(s[0] as int, Pow256(n - 1));
    }
  }

  lemma OneMore(n: nat)
    ensures Pow256(0) == 1 && Pow256(n + 1) == 256 * Pow256(n)
  {
  }

  lemma TimesMoved(a: int, p: int)
    ensures a * (256 * p) == 256 * (a * p)
  {
  }

  /** The first byte, the second, and the rest. */
  lemma UnsignedTwo(s: bytes)
    requires |s| > 2
    ensures Unsigned(s) == s[0] as int * Pow256(|s| - 1) + (s[1] as int * Pow256(|s| - 2) + Unsigned(s[2..]))
    ensures Unsigned(s[1..]) == s[1] as int * Pow256(|s| - 2) + Unsigned(s[2..])
    ensures Unsigned(s[2..]) < Pow256(|s| - 2)
  {
    UnsignedFirst(s);
    UnsignedFirst(s[1..]);
    UnsignedFirst(s[2..]);
    assert s[1..][1..] == s[2..];
  }
}
