/**
 mongoose's streaming MD5 on a little-endian host, with the compression function left
 abstract: the same fold as SHA-1 and the two-case padding of sections 3.1 and 3.2 of
 RFC 1321.
 */
module Md5 {
  import opened Bytes
  import opened BlockHash

  datatype State = State(a: word, b: word, c: word, d: word)

  const INITIAL := State(0x67452301, 0xEFCDAB89, 0x98BADCFE, 0x10325476)

  // ----- the standard

  function Padding(n: nat): seq<byte> {
    [0x80] + Zeros(ZeroBytes(n)) + LeBytes(8 * n % TWO_64, 8)
  }

  function Digest(s: State): seq<byte> {
    LeBytes(s.a, 4) + LeBytes(s.b, 4) + LeBytes(s.c, 4) + LeBytes(s.d, 4)
  }

  function Hash(c: (State, seq<byte>) -> State, m: seq<byte>): seq<byte> {
    Digest(Blocks(c, INITIAL, m + Padding(|m|)))
  }

  lemma {:induction false} BytesJoin(h: nat, l: nat, j: nat, k: nat)
    requires l < Pow256(k)
    ensures LeBytes(h * Pow256(k) + l, k + j) == LeBytes(l, k) + LeBytes(h, j)
    decreases k
  {
    if k == 0 {
      assert [] + LeBytes(h, j) == LeBytes(h, j);
    } else {
      var x := h * Pow256(k - 1);
      assert h * Pow256(k) == 256 * x;
      assert (256 * x + l) / 256 == x + l / 256 && (256 * x + l) % 256 == l % 256;
      BytesJoin(h, l / 256, j, k - 1);
      assert [l % 256] + (LeBytes(l / 256, k - 1) + LeBytes(h, j)) == ([l % 256] + LeBytes(l / 256, k - 1)) + LeBytes(h, j);
    }
  }

  /** The count words in memory are the count in eight bytes, least significant first. */
  lemma CountBytes(n: nat)
    ensures LeBytes(Low(n), 4) + LeBytes(High(n), 4) == LeBytes(8 * n % TWO_64, 8)
  {
    hide LeBytes, High, Low;
    CountWords(n);
    PowersOf256();
    BytesJoin(High(n), Low(n), 4, 4);
  }

  /** Padding that fits in the block that has been begun. */
  lemma PadOne(c: (State, seq<byte>) -> State, s: State, left: seq<byte>, bits: seq<byte>)
    requires |left| <= 55 && |bits| == 8
    ensures Blocks(c, s, left + ([0x80] + Zeros(55 - |left|) + bits)) == c(s, (left + ([0x80] + Zeros(55 - |left|))) + bits)
  {
    hide Blocks, Zeros;
    var z := Zeros(55 - |left|);
    var b := (left + ([0x80] + z)) + bits;
    assert left + ([0x80] + z + bits) == b;
    OneStep(c, s, b);
  }

  lemma OneStep(c: (State, seq<byte>) -> State, s: State, b: seq<byte>)
    requires |b| == 64
    ensures Blocks(c, s, b) == c(s, b)
  {
    hide Blocks;
    BlockStep(c, s, b);
    assert b[..64] == b && b[64..] == [];
    BlocksDone(c, c(s, b), []);
  }

  /** Padding that needs one block more. */
  lemma PadTwo(c: (State, seq<byte>) -> State, s: State, left: seq<byte>, bits: seq<byte>)
    requires 56 <= |left| <= 63 && |bits| == 8
    ensures Blocks(c, s, left + ([0x80] + Zeros(119 - |left|) + bits))
         == c(c(s, left + ([0x80] + Zeros(63 - |left|))), Zeros(56) + bits)
  {
    hide Blocks, Zeros;
    var z := Zeros(63 - |left|);
    ZerosJoin(63 - |left|, 56);
    var first, second := left + ([0x80] + z), Zeros(56) + bits;
    var all := left + ([0x80] + (z + Zeros(56)) + bits);
    assert all == first + second;
    BlockStep(c, s, all);
    assert all[..64] == first && all[64..] == second;
    OneStep(c, c(s, first), second);
  }

  lemma ZeroBytesHere(n: nat)
    ensures ZeroBytes(n) == if n % 64 <= 55 then 55 - n % 64 else 119 - n % 64
  {
  }

  // ----- the context

  class Context {
    const compress: (State, seq<byte>) -> State
    const buffer: array<byte>
    var state: State
    var bits0: word
    var bits1: word
    ghost var fed: seq<byte>

    ghost predicate Valid()
      reads this, buffer
    {
      && buffer.Length == 64
      && state == Blocks(compress, INITIAL, fed)
      && bits0 == Low(|fed|) && bits1 == High(|fed|)
      && buffer[..|Rest(fed)|] == Rest(fed)
    }

    constructor (c: (State, seq<byte>) -> State)
      ensures Valid() && compress == c && fed == [] && fresh(buffer)
    {
      compress := c;
      buffer := new byte[64];
      state := INITIAL;
      bits0, bits1 := 0, 0;
      fed := [];
    }

    /** Counts the new bits and gives the number of bytes that wait in the buffer. */
    method Count(len: nat) returns (t: nat)
      requires Valid() && len < TWO_32
      modifies this`bits0, this`bits1
      ensures t == |Rest(fed)|
      ensures bits0 == Low(|fed| + len) && bits1 == High(|fed| + len)
    {
      hide Blocks, Rest;
      RestLength(fed);
      Pending(|fed|);
      CountAdds(|fed|, len);
      hide Low, High;
      t := bits0 / 8 % 64;
      bits0, bits1 := AddLow(bits0, len), AddHigh(bits0, bits1, len);
    }

    /** Any update leaves what one fold over all the bytes would. */
    method Update(data: seq<byte>)
      requires Valid() && |data| < TWO_32
      modifies this, buffer
      ensures Valid() && fed == old(fed) + data
    {
      hide Blocks, Rest, Low, High;
      var t := Count(|data|);
      ghost var left := Rest(fed);
      BlocksAppend(compress, INITIAL, fed, data);
      fed := fed + data;
      var start := 0;
      if t != 0 {
        if |data| < 64 - t {
          BlocksDone(compress, state, left + data);
          Copy(buffer, t, data);
          return;
        }
        FirstBlock(compress, state, left, data);
        Copy(buffer, t, data[..64 - t]);
        assert buffer[..64] == buffer[..];
        state := compress(state, buffer[..]);
        start := 64 - t;
      } else {
        assert left + data == data[0..];
      }
      var i;
      state, i := CompressBlocks(compress, state, data, start);
      Copy(buffer, 0, data[i..]);
    }

    /** The digest of everything fed. */
    method Final() returns (digest: seq<byte>)
      requires Valid()
      modifies this, buffer
      ensures digest == Hash(compress, old(fed))
    {
      hide Blocks, Rest, Low, High, Digest, LeBytes, Zeros, ZeroBytes;
      ghost var m := fed;
      RestLength(m);
      Pending(|m|);
      ZeroBytesHere(|m|);
      BlocksAppend(compress, INITIAL, m, Padding(|m|));
      CountBytes(|m|);
      var bits := LeBytes(bits0, 4) + LeBytes(bits1, 4);
      assert Padding(|m|) == [0x80] + Zeros(ZeroBytes(|m|)) + bits;
      var count := bits0 / 8 % 64;
      assert buffer[..count] == Rest(m);
      var room := 63 - count;
      if room < 8 {
        PadTwo(compress, state, Rest(m), bits);
        FillBlock(count, room);
        state := compress(state, buffer[..]);
        Copy(buffer, 0, Zeros(56));
        assert buffer[..56] == Zeros(56);
      } else {
        PadOne(compress, state, Rest(m), bits);
        FillBlock(count, room - 8);
      }
      Copy(buffer, 56, bits);
      assert buffer[..64] == buffer[..];
      state := compress(state, buffer[..]);
      digest := Digest(state);
      state, bits0, bits1 := State(0, 0, 0, 0), 0, 0;
    }

    /** The end mark and zero bytes behind what is in the buffer. */
    method FillBlock(count: nat, zeros: nat)
      requires buffer.Length == 64 && count + 1 + zeros <= 64
      modifies buffer
      ensures buffer[..count + 1 + zeros] == old(buffer[..count]) + ([0x80] + Zeros(zeros))
      ensures count + 1 + zeros == 64 ==> buffer[..] == old(buffer[..count]) + ([0x80] + Zeros(zeros))
    {
      hide Zeros;
      Copy(buffer, count, [0x80] + Zeros(zeros));
      assert buffer[..64] == buffer[..];
    }
  }

  /** cs_md5 before the digest is put in hexadecimal: pieces are hashed as if they were one. */
  method HashAll(c: (State, seq<byte>) -> State, pieces: seq<seq<byte>>) returns (digest: seq<byte>)
    requires forall i :: 0 <= i < |pieces| ==> |pieces[i]| < TWO_32
    ensures digest == Hash(c, Flatten(pieces))
  {
    hide Hash, Flatten, Context.Valid;
    var context := new Context(c);
    NoPieces();
    for i := 0 to |pieces|
      invariant context.Valid() && context.compress == c && fresh(context) && fresh(context.buffer)
      invariant context.fed == Flatten(pieces[..i])
    {
      assert pieces[..i + 1] == pieces[..i] + [pieces[i]];
      FlattenSnoc(pieces[..i], pieces[i]);
      context.Update(pieces[i]);
    }
    assert pieces[..|pieces|] == pieces;
    digest := context.Final();
  }

  lemma NoPieces()
    ensures Flatten([]) == []
  {
  }
}
