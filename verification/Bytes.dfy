/**
 Bytes as the C sources use them: values 0..255 held in sequences, exclusive or,
 and big- and little-endian integers.
 */
module Bytes {

  type byte = x: int | 0 <= x < 256

  function Pow2(n: nat): (r: nat)
    ensures r > 0
  {
    if n == 0 then 1 else 2 * Pow2(n - 1)
  }

  /** Exclusive or of the n low bits, bit by bit. */
  function XorBits(a: nat, b: nat, n: nat): (r: nat)
    ensures r < Pow2(n)
  {
    if n == 0 then 0 else (if a % 2 == b % 2 then 0 else 1) + 2 * XorBits(a / 2, b / 2, n - 1)
  }

  function Xor(a: byte, b: byte): byte {
    assert Pow2(8) == 256 by { assert Pow2(4) == 16; }
    XorBits(a, b, 8)
  }

  lemma {:induction false} XorBitsCancel(a: nat, b: nat, n: nat)
    requires a < Pow2(n)
    ensures XorBits(XorBits(a, b, n), b, n) == a
  {
    if n > 0 {
      XorBitsCancel(a / 2, b / 2, n - 1);
      var half, low := XorBits(a / 2, b / 2, n - 1), if a % 2 == b % 2 then 0 else 1;
      assert (low + 2 * half) / 2 == half && (low + 2 * half) % 2 == low;
    }
  }

  predicate Bit(n: nat, i: nat) {
    if i == 0 then n % 2 == 1 else Bit(n / 2, i - 1)
  }

  /** Every bit of the exclusive or is set exactly when the operands' bits differ. */
  lemma {:induction false} XorBitsBit(a: nat, b: nat, n: nat, i: nat)
    requires i < n
    ensures Bit(XorBits(a, b, n), i) <==> Bit(a, i) != Bit(b, i)
  {
    var half, low := XorBits(a / 2, b / 2, n - 1), if a % 2 == b % 2 then 0 else 1;
    assert (low + 2 * half) / 2 == half && (low + 2 * half) % 2 == low;
    if i > 0 {
      XorBitsBit(a / 2, b / 2, n - 1, i - 1);
    }
  }

  lemma XorCancel(a: byte, b: byte)
    ensures Xor(Xor(a, b), b) == a
  {
    assert Pow2(8) == 256 by { assert Pow2(4) == 16; }
    XorBitsCancel(a, b, 8);
  }

  /** Value of a byte string in network order. */
  function BeValue(s: seq<byte>): nat {
    if s == [] then 0 else BeValue(s[..|s| - 1]) * 256 + s[|s| - 1]
  }

  /** The k low bytes of n in network order. */
  function BeBytes(n: nat, k: nat): (s: seq<byte>)
    ensures |s| == k
  {
    if k == 0 then [] else BeBytes(n / 256, k - 1) + [n % 256]
  }

  function Pow256(k: nat): nat {
    if k == 0 then 1 else 256 * Pow256(k - 1)
  }

  lemma {:induction false} BeRoundTrip(n: nat, k: nat)
    requires n < Pow256(k)
    ensures BeValue(BeBytes(n, k)) == n
  {
    if k > 0 {
      BeRoundTrip(n / 256, k - 1);
      var s := BeBytes(n, k);
      assert s[..|s| - 1] == BeBytes(n / 256, k - 1);
    }
  }

  /** Value of a byte string in little-endian order. */
  function LeValue(s: seq<byte>): nat {
    if s == [] then 0 else s[0] + 256 * LeValue(s[1..])
  }

  function LeBytes(n: nat, k: nat): (s: seq<byte>)
    ensures |s| == k
  {
    if k == 0 then [] else [n % 256] + LeBytes(n / 256, k - 1)
  }

  lemma {:induction false} LeRoundTrip(n: nat, k: nat)
    requires n < Pow256(k)
    ensures LeValue(LeBytes(n, k)) == n
  {
    if k > 0 {
      LeRoundTrip(n / 256, k - 1);
      assert LeBytes(n, k)[1..] == LeBytes(n / 256, k - 1);
    }
  }

  lemma PowersOf256()
    ensures Pow256(1) == 0x100
    ensures Pow256(2) == 0x1_0000
    ensures Pow256(4) == 0x1_0000_0000
    ensures Pow256(8) == 0x1_0000_0000_0000_0000
  {
    assert Pow256(3) == 0x100_0000;
    assert Pow256(5) == 0x100_0000_0000;
    assert Pow256(6) == 0x1_0000_0000_0000;
    assert Pow256(7) == 0x100_0000_0000_0000;
  }

  function Zeros(k: nat): (s: seq<byte>)
    ensures |s| == k
  {
    if k == 0 then [] else [0] + Zeros(k - 1)
  }

  lemma {:induction false} ZerosJoin(j: nat, k: nat)
    ensures Zeros(j) + Zeros(k) == Zeros(j + k)
  {
    if j == 0 {
      assert [] + Zeros(k) == Zeros(k);
    } else {
      ZerosJoin(j - 1, k);
      assert ([0] + Zeros(j - 1)) + Zeros(k) == [0] + (Zeros(j - 1) + Zeros(k));
    }
  }

  lemma {:induction false} ZerosFrom(k: nat, j: nat)
    requires j <= k
    ensures Zeros(k)[j..] == Zeros(k - j)
  {
    if j > 0 {
      ZerosFrom(k - 1, j - 1);
      assert Zeros(k)[j..] == Zeros(k - 1)[j - 1..];
    }
  }

  /** Concatenation of a list of byte strings. */
  function Flatten(parts: seq<seq<byte>>): seq<byte> {
    if parts == [] then [] else parts[0] + Flatten(parts[1..])
  }

  lemma {:induction false} FlattenSnoc(parts: seq<seq<byte>>, p: seq<byte>)
    ensures Flatten(parts + [p]) == Flatten(parts) + p
  {
    if parts == [] {
      assert parts + [p] == [p];
      assert Flatten([p]) == p + Flatten([]);
    } else {
      assert (parts + [p])[1..] == parts[1..] + [p];
      FlattenSnoc(parts[1..], p);
    }
  }
}
