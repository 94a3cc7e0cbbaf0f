/**
 mongoose's streaming SHA-1 with the compression function left abstract: any sequence of
 updates is one fold over all the data, and finalising feeds the padding of section 5.1.1
 of FIPS 180-4.
 */
module Sha1 {
  import opened Bytes
  import opened BlockHash

  datatype State = State(a: word, b: word, c: word, d: word, e: word)

  const INITIAL := State(0x67452301, 0xEFCDAB89, 0x98BADCFE, 0x10325476, 0xC3D2E1F0)

  // ----- the standard

  /** The bit count of n bytes in eight bytes. */
  function LengthField(n: nat): (s: seq<byte>)
    ensures |s| == 8
  {
    BeBytes(8 * n % TWO_64, 8)
  }

  function Padding(n: nat): seq<byte> {
    [0x80] + Zeros(ZeroBytes(n)) + LengthField(n)
  }

  function Digest(s: State): seq<byte> {
    BeBytes(s.a, 4) + BeBytes(s.b, 4) + BeBytes(s.c, 4) + BeBytes(s.d, 4) + BeBytes(s.e, 4)
  }

  function Hash(c: (State, seq<byte>) -> State, m: seq<byte>): seq<byte> {
    Digest(Blocks(c, INITIAL, m + Padding(|m|)))
  }

  lemma PaddingLength(n: nat)
    ensures |Padding(n)| == 9 + ZeroBytes(n)
  {
    hide LengthField, Zeros, ZeroBytes;
  }

  /** A padded message is a whole number of blocks. */
  lemma PaddedWhole(m: seq<byte>)
    ensures Rest(m + Padding(|m|)) == []
  {
    hide Rest, Padding, ZeroBytes;
    var p := Padding(|m|);
    PaddingLength(|m|);
    RestLength(m + p);
    WholeBlocks(|m|, |p|);
  }

  lemma WholeBlocks(n: nat, p: nat)
    requires p >= 8 && (n + (p - 8)) % 64 == 56
    ensures (n + p) % 64 == 0
  {
  }

  // ----- words as the code takes them apart

  /** Most significant byte first, by shifts. */
  function Shifts(w: word): seq<byte> {
    [w / 0x100_0000 % 256, w / 0x1_0000 % 256, w / 0x100 % 256, w % 256]
  }

  lemma ShiftsAreBytes(w: word)
    ensures Shifts(w) == BeBytes(w, 4)
  {
    var n: nat := w;
    assert BeBytes(n, 4) == BeBytes(n / 256, 3) + [n % 256];
    assert BeBytes(n / 256, 3) == BeBytes(n / 256 / 256, 2) + [n / 256 % 256];
    assert BeBytes(n / 256 / 256, 2) == BeBytes(n / 256 / 256 / 256, 1) + [n / 256 / 256 % 256];
    assert BeBytes(n / 256 / 256 / 256, 1) == BeBytes(n / 256 / 256 / 256 / 256, 0) + [n / 256 / 256 / 256 % 256];
  }

  lemma {:induction false} BytesJoin(h: nat, l: nat, j: nat, k: nat)
    requires l < Pow256(k)
    ensures BeBytes(h * Pow256(k) + l, j + k) == BeBytes(h, j) + BeBytes(l, k)
    decreases k
  {
    if k == 0 {
      assert BeBytes(h, j) + [] == BeBytes(h, j);
    } else {
      var x := h * Pow256(k - 1);
      assert h * Pow256(k) == 256 * x;
      assert (256 * x + l) / 256 == x + l / 256 && (256 * x + l) % 256 == l % 256;
      BytesJoin(h, l / 256, j, k - 1);
      assert (BeBytes(h, j) + BeBytes(l / 256, k - 1)) + [l % 256] == BeBytes(h, j) + (BeBytes(l / 256, k - 1) + [l % 256]);
    }
  }

  /** The count words, most significant first, are the count in eight bytes. */
  lemma FinalCount(n: nat)
    ensures Shifts(High(n)) + Shifts(Low(n)) == LengthField(n)
  {
    hide BeBytes, Shifts, High, Low;
    ShiftsAreBytes(High(n));
    ShiftsAreBytes(Low(n));
    CountWords(n);
    PowersOf256();
    BytesJoin(High(n), Low(n), 4, 4);
  }

  lemma PaddedText(m: seq<byte>, bits: seq<byte>)
    requires bits == LengthField(|m|)
    ensures ((m + [0x80]) + Zeros(ZeroBytes(|m|))) + bits == m + Padding(|m|)
  {
    hide Zeros, ZeroBytes, LengthField;
    var z := Zeros(ZeroBytes(|m|));
    assert ((m + [0x80]) + z) + bits == m + ([0x80] + z + bits);
  }

  // ----- the context

  class Context {
    const compress: (State, seq<byte>) -> State
    const buffer: array<byte>
    var state: State
    var count0: word
    var count1: word
    ghost var fed: seq<byte>

    ghost predicate Valid()
      reads this, buffer
    {
      && buffer.Length == 64
      && state == Blocks(compress, INITIAL, fed)
      && count0 == Low(|fed|) && count1 == High(|fed|)
      && buffer[..|Rest(fed)|] == Rest(fed)
    }

    constructor (c: (State, seq<byte>) -> State)
      ensures Valid() && compress == c && fed == [] && fresh(buffer)
    {
      compress := c;
      buffer := new byte[64];
      state := INITIAL;
      count0, count1 := 0, 0;
      fed := [];
    }

    /** Counts the new bits and gives the number of bytes that wait in the buffer. */
    method Count(len: nat) returns (j: nat)
      requires Valid() && len < TWO_32
      modifies this`count0, this`count1
      ensures j == |Rest(fed)|
      ensures count0 == Low(|fed| + len) && count1 == High(|fed| + len)
    {
      hide Blocks, Rest;
      RestLength(fed);
      Pending(|fed|);
      CountAdds(|fed|, len);
      hide Low, High;
      j := count0 / 8 % 64;
      count0, count1 := AddLow(count0, len), AddHigh(count0, count1, len);
    }

    /** Any update leaves what one fold over all the bytes would. */
    method Update(data: seq<byte>)
      requires Valid() && |data| <= TWO_32 - 64
      modifies this, buffer
      ensures Valid() && fed == old(fed) + data
    {
      hide Blocks, Rest, Low, High;
      var j := Count(|data|);
      var i := 0;
      ghost var left := Rest(fed);
      BlocksAppend(compress, INITIAL, fed, data);
      if j + |data| > 63 {
        FirstBlock(compress, state, left, data);
        Copy(buffer, j, data[..64 - j]);
        assert buffer[..64] == buffer[..];
        state := compress(state, buffer[..]);
        state, i := CompressBlocks(compress, state, data, 64 - j);
        Copy(buffer, 0, data[i..]);
      } else {
        BlocksDone(compress, state, left + data);
        Copy(buffer, j, data);
      }
      fed := fed + data;
    }

    /** The digest of everything fed; the padding goes through the same updates. */
    method Final() returns (digest: seq<byte>)
      requires Valid()
      modifies this, buffer
      ensures digest == Hash(compress, old(fed))
    {
      hide Blocks, Rest, Low, High, Shifts, Digest, Padding, Zeros, ZeroBytes, LengthField;
      ghost var m := fed;
      var finalCount := Shifts(count1) + Shifts(count0);
      FinalCount(|m|);
      Update([0x80]);
      FeedZeros();
      Update(finalCount);
      PaddedText(m, finalCount);
      digest := Words();
      state, count0, count1 := State(0, 0, 0, 0, 0), 0, 0;
    }

    /** Zero bytes up to where the count goes. */
    method FeedZeros()
      requires Valid() && |fed| > 0
      modifies this, buffer
      ensures Valid() && fed == old(fed) + Zeros(ZeroBytes(|old(fed)| - 1))
    {
      hide Blocks, Rest, Low, High, Zeros, ZeroBytes;
      ghost var k := 0;
      ghost var n := |fed| - 1;
      NoZeros();
      Pending(|fed|);
      ZerosLeft(n, 0);
      while count0 / 8 % 64 * 8 != 448
        invariant Valid() && k <= ZeroBytes(n) && fed == old(fed) + Zeros(k)
        invariant |fed| == n + 1 + k && count0 / 8 % 64 == |fed| % 64
        invariant |fed| % 64 == 56 <==> k == ZeroBytes(n)
        decreases ZeroBytes(n) - k
      {
        ZeroByte(old(fed), k);
        Update([0]);
        k := k + 1;
        Pending(|fed|);
        ZerosLeft(n, k);
      }
    }

    method Words() returns (digest: seq<byte>)
      ensures digest == Digest(state)
    {
      hide Shifts, BeBytes;
      ShiftsAreBytes(state.a);
      ShiftsAreBytes(state.b);
      ShiftsAreBytes(state.c);
      ShiftsAreBytes(state.d);
      ShiftsAreBytes(state.e);
      digest := Shifts(state.a) + Shifts(state.b) + Shifts(state.c) + Shifts(state.d) + Shifts(state.e);
    }
  }

  lemma ZerosLeft(n: nat, k: nat)
    requires k <= ZeroBytes(n)
    ensures (n + 1 + k) % 64 == 56 <==> k == ZeroBytes(n)
  {
  }

  lemma NoZeros()
    ensures Zeros(0) == []
  {
  }

  lemma {:induction false} ZerosSnoc(k: nat)
    ensures Zeros(k) + [0] == Zeros(k + 1)
  {
    if k > 0 { ZerosSnoc(k - 1); }
  }

  lemma ZeroByte(m: seq<byte>, k: nat)
    ensures (m + Zeros(k)) + [0] == m + Zeros(k + 1)
  {
    hide Zeros;
    ZerosSnoc(k);
    assert (m + Zeros(k)) + [0] == m + (Zeros(k) + [0]);
  }
}
