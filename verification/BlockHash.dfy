/**
 What the streaming hashes have in common: a fold of a compression function over 64-byte
 blocks, the bytes that are left over, and the bit count kept in two 32-bit words.
 */
module BlockHash {
  import opened Bytes

  const TWO_32 := 0x1_0000_0000
  const TWO_64 := 0x1_0000_0000_0000_0000

  type word = x: int | 0 <= x < TWO_32

  // ----- blocks

  /** The state after all whole blocks of the data. */
  function Blocks<S>(c: (S, seq<byte>) -> S, s: S, data: seq<byte>): S
    decreases |data|
  {
    if |data| < 64 then s else Blocks(c, c(s, data[..64]), data[64..])
  }

  /** The bytes behind the last whole block. */
  function Rest(data: seq<byte>): (r: seq<byte>)
    ensures |r| < 64
    decreases |data|
  {
    if |data| < 64 then data else Rest(data[64..])
  }

  lemma {:induction false} RestLength(data: seq<byte>)
    ensures |Rest(data)| == |data| % 64
    decreases |data|
  {
    if |data| >= 64 { RestLength(data[64..]); }
  }

  /** Hashing can stop anywhere and go on from the state and the bytes left over. */
  lemma {:induction false} BlocksAppend<S>(c: (S, seq<byte>) -> S, s: S, m: seq<byte>, d: seq<byte>)
    ensures Blocks(c, s, m + d) == Blocks(c, Blocks(c, s, m), Rest(m) + d)
    ensures Rest(m + d) == Rest(Rest(m) + d)
    decreases |m|
  {
    if |m| >= 64 {
      assert (m + d)[..64] == m[..64] && (m + d)[64..] == m[64..] + d;
      BlocksAppend(c, c(s, m[..64]), m[64..], d);
    }
  }

  lemma BlockStep<S>(c: (S, seq<byte>) -> S, s: S, data: seq<byte>)
    requires |data| >= 64
    ensures Blocks(c, s, data) == Blocks(c, c(s, data[..64]), data[64..]) && Rest(data) == Rest(data[64..])
  {
  }

  lemma BlocksDone<S>(c: (S, seq<byte>) -> S, s: S, data: seq<byte>)
    requires |data| < 64
    ensures Blocks(c, s, data) == s && Rest(data) == data
  {
  }

  // ----- the bit count of n bytes in two words

  function Low(n: nat): word {
    8 * n % TWO_32
  }

  function High(n: nat): word {
    8 * n / TWO_32 % TWO_32
  }

  /** Together the words hold the count modulo 2^64. */
  lemma CountWords(n: nat)
    ensures High(n) as int * TWO_32 + Low(n) == 8 * n % TWO_64
  {
    var b := 8 * n;
    var q := b / TWO_32;
    assert b == q * TWO_32 + Low(n);
    assert q == q / TWO_32 * TWO_32 + High(n);
    assert b == q / TWO_32 * TWO_64 + (High(n) as int * TWO_32 + Low(n));
    Mod64(b, q / TWO_32, High(n) as int * TWO_32 + Low(n));
  }

  lemma Mod32(x: nat, q: nat, r: nat)
    requires x == q * TWO_32 + r && r < TWO_32
    ensures x % TWO_32 == r && x / TWO_32 == q
  {
  }

  lemma Mod64(x: nat, q: nat, r: nat)
    requires x == q * TWO_64 + r && r < TWO_64
    ensures x % TWO_64 == r
  {
  }

  lemma Mod6(x: nat, q: nat, r: nat)
    requires x == q * 64 + r && r < 64
    ensures x % 64 == r
  {
  }

  lemma LowBytes(n: nat)
    ensures Low(n) == 8 * (n % 0x2000_0000)
  {
    Mod32(8 * n, n / 0x2000_0000, 8 * (n % 0x2000_0000));
  }

  /** Bytes that wait in the buffer, from the low word. */
  lemma Pending(n: nat)
    ensures Low(n) / 8 % 64 == n % 64
  {
    hide Low;
    LowBytes(n);
    var k, r := n / 0x2000_0000, n % 0x2000_0000;
    assert Low(n) / 8 == r;
    Mod6(n, k * 0x80_0000 + r / 64, r % 64);
  }

  /** The low word plus the new bits, and the carry. */
  function AddLow(low: word, len: nat): word {
    (low as int + 8 * len % TWO_32) % TWO_32
  }

  function AddHigh(low: word, high: word, len: nat): word {
    (high as int + (if AddLow(low, len) < low then 1 else 0) + len / 0x2000_0000) % TWO_32
  }

  /** Adding an update keeps the words the count of all bytes. */
  lemma CountAdds(n: nat, len: nat)
    requires len < TWO_32
    ensures AddLow(Low(n), len) == Low(n + len) && AddHigh(Low(n), High(n), len) == High(n + len)
  {
    var q, l := 8 * n / TWO_32, Low(n) as int;
    var k, r := len / 0x2000_0000, 8 * len % TWO_32;
    assert 8 * len == k * TWO_32 + r;
    assert 8 * n == q * TWO_32 + l;
    var carry := if l + r >= TWO_32 then 1 else 0;
    var low := l + r - carry * TWO_32;
    assert 8 * (n + len) == (q + k + carry) * TWO_32 + low;
    Mod32(8 * (n + len), q + k + carry, low);
    Mod32(l + r, carry, low);
    assert AddLow(Low(n), len) == low;
    assert carry == if low < l then 1 else 0;
    ModAdds(q, k + carry);
  }

  lemma ModAdds(q: nat, k: nat)
    ensures (q % TWO_32 + k) % TWO_32 == (q + k) % TWO_32
  {
    var p := (q % TWO_32 + k) / TWO_32;
    Mod32(q + k, q / TWO_32 + p, (q % TWO_32 + k) % TWO_32);
  }

  // ----- padding

  /** The fewest zero bytes that leave room for the count at the end of a block. */
  function ZeroBytes(n: nat): (k: nat)
    ensures k < 64 && (n + 1 + k) % 64 == 56
  {
    (119 - n % 64) % 64
  }

  // ----- the block buffer

  /** memcpy into the block buffer. */
  method Copy(buffer: array<byte>, at: nat, data: seq<byte>)
    requires at + |data| <= buffer.Length
    modifies buffer
    ensures buffer[..at + |data|] == old(buffer[..at]) + data
    ensures buffer[at + |data|..] == old(buffer[at + |data|..])
  {
    forall k | 0 <= k < |data| { buffer[at + k] := data[k]; }
  }

  /** All whole blocks at the front of the data are compressed. */
  method CompressBlocks<S>(c: (S, seq<byte>) -> S, s: S, data: seq<byte>, start: nat) returns (r: S, i: nat)
    requires start <= |data|
    ensures start <= i <= |data| && |data| - i < 64
    ensures Blocks(c, s, data[start..]) == r && Rest(data[start..]) == data[i..]
  {
    hide Blocks, Rest;
    r, i := s, start;
    while i + 64 <= |data|
      invariant start <= i <= |data|
      invariant Blocks(c, s, data[start..]) == Blocks(c, r, data[i..]) && Rest(data[start..]) == Rest(data[i..])
    {
      BlockStep(c, r, data[i..]);
      assert data[i..][..64] == data[i..i + 64] && data[i..][64..] == data[i + 64..];
      r := c(r, data[i..i + 64]);
      i := i + 64;
    }
    BlocksDone(c, r, data[i..]);
  }

  /** Filling the buffer from what was left over gives the first block. */
  lemma FirstBlock<S>(c: (S, seq<byte>) -> S, s: S, left: seq<byte>, data: seq<byte>)
    requires |left| < 64 <= |left| + |data|
    ensures var n := 64 - |left|;
            && Blocks(c, s, left + data) == Blocks(c, c(s, left + data[..n]), data[n..])
            && Rest(left + data) == Rest(data[n..])
  {
    hide Blocks, Rest;
    var n := 64 - |left|;
    BlockStep(c, s, left + data);
    assert (left + data)[..64] == left + data[..n] && (left + data)[64..] == data[n..];
  }
}
