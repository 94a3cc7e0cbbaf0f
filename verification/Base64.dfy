/**
 Base64 (section 4 of RFC 4648) in mongoose's three forms: the streaming encoder, the
 one-shot encoder and the decoder.
 */
module Base64 {
  import opened Bytes

  const NUL := 0 as char

  // ----- the standard: 24 bits in, four characters out

  /** The alphabet. */
  function Code(v: nat): char
    requires v < 64
  {
    if v < 26 then 'A' + v as char
    else if v < 52 then 'a' + (v - 26) as char
    else if v < 62 then '0' + (v - 52) as char
    else if v == 62 then '+' else '/'
  }

  /** The four characters of a 24-bit group. */
  function Group(n: nat): (s: string)
    requires n < 0x100_0000
    ensures |s| == 4
  {
    [Code(n / 0x4_0000), Code(n / 0x1000 % 64), Code(n / 64 % 64), Code(n % 64)]
  }

  function Bits(a: byte, b: byte, c: byte): (n: nat)
    ensures n < 0x100_0000
  {
    a as int * 0x1_0000 + b as int * 0x100 + c
  }

  function Encode(s: seq<byte>): string
    decreases |s|
  {
    if |s| == 0 then ""
    else if |s| == 1 then Group(Bits(s[0], 0, 0))[..2] + "=="
    else if |s| == 2 then Group(Bits(s[0], s[1], 0))[..3] + "="
    else Group(Bits(s[0], s[1], s[2])) + Encode(s[3..])
  }

  // ----- the characters as the code computes them

  function First(a: byte): (v: nat)
    ensures v < 64
  {
    a / 4
  }

  function Second(a: byte, b: byte): (v: nat)
    ensures v < 64
  {
    a % 4 * 16 + b / 16
  }

  function Third(b: byte, c: byte): (v: nat)
    ensures v < 64
  {
    b % 16 * 4 + c / 64
  }

  function Fourth(c: byte): (v: nat)
    ensures v < 64
  {
    c % 64
  }

  lemma DivParts(a: nat, b: nat, c: nat)
    requires a < 256 && b < 256 && c < 256
    ensures var n := a * 0x1_0000 + b * 0x100 + c;
            && n / 64 == a * 0x400 + b * 4 + c / 64
            && n / 0x1000 == a * 16 + b / 16
            && n / 0x4_0000 == a / 4
            && n % 64 == c % 64
  {
  }

  lemma ModParts(a: nat, b: nat, c: nat)
    requires a < 256 && b < 256 && c < 256
    ensures (a * 0x400 + b * 4 + c / 64) % 64 == b % 16 * 4 + c / 64
    ensures (a * 16 + b / 16) % 64 == a % 4 * 16 + b / 16
  {
  }

  lemma Parts(a: nat, b: nat, c: nat, n: nat)
    requires a < 256 && b < 256 && c < 256 && n == a * 0x1_0000 + b * 0x100 + c
    ensures n / 0x4_0000 == a / 4 && n % 64 == c % 64
    ensures n / 0x1000 % 64 == a % 4 * 16 + b / 16
    ensures n / 64 % 64 == b % 16 * 4 + c / 64
  {
    DivParts(a, b, c);
    ModParts(a, b, c);
  }

  lemma PartsAre(a: byte, b: byte, c: byte, n: nat)
    requires n == Bits(a, b, c)
    ensures n / 0x4_0000 == First(a) && n / 0x1000 % 64 == Second(a, b)
    ensures n / 64 % 64 == Third(b, c) && n % 64 == Fourth(c)
  {
    Parts(a, b, c, n);
  }

  lemma GroupParts(a: byte, b: byte, c: byte)
    ensures Group(Bits(a, b, c)) == [Code(First(a)), Code(Second(a, b)), Code(Third(b, c)), Code(Fourth(c))]
  {
    hide Code, Bits, First, Second, Third, Fourth;
    PartsAre(a, b, c, Bits(a, b, c));
  }

  /** What is emitted for a chunk of which `size` bytes are in use. */
  function Chunk(a: byte, b: byte, c: byte, size: nat): string {
    [Code(First(a)), Code(Second(a, b))]
    + (if size > 1 then [Code(Third(b, c))] else "") + (if size > 2 then [Code(Fourth(c))] else "")
  }

  /** The standard's groups are those chunks, padded. */
  lemma EncodeOne(s: seq<byte>)
    requires |s| == 1
    ensures Encode(s) == Chunk(s[0], 0, 0, 1) + "=="
  {
    hide Code, Group, Bits, First, Second, Third, Fourth;
    GroupParts(s[0], 0, 0);
    assert Group(Bits(s[0], 0, 0))[..2] == Chunk(s[0], 0, 0, 1);
  }

  lemma EncodeTwo(s: seq<byte>)
    requires |s| == 2
    ensures Encode(s) == Chunk(s[0], s[1], 0, 2) + "="
  {
    hide Code, Group, Bits, First, Second, Third, Fourth;
    GroupParts(s[0], s[1], 0);
    assert Group(Bits(s[0], s[1], 0))[..3] == Chunk(s[0], s[1], 0, 2);
  }

  lemma EncodeThree(s: seq<byte>)
    requires |s| >= 3
    ensures Encode(s) == Chunk(s[0], s[1], s[2], 3) + Encode(s[3..])
  {
    GroupIsChunk(s[0], s[1], s[2]);
    hide Group, Chunk, Bits;
  }

  lemma GroupIsChunk(a: byte, b: byte, c: byte)
    ensures Group(Bits(a, b, c)) == Chunk(a, b, c, 3)
  {
    hide Code, Group, Bits, First, Second, Third, Fourth;
    GroupParts(a, b, c);
  }

  // ----- the streaming encoder

  /** Characters of the whole groups of three bytes, and the bytes behind them. */
  function Triples(s: seq<byte>): string
    decreases |s|
  {
    if |s| < 3 then "" else Chunk(s[0], s[1], s[2], 3) + Triples(s[3..])
  }

  function Left(s: seq<byte>): (r: seq<byte>)
    ensures |r| < 3
    decreases |s|
  {
    if |s| < 3 then s else Left(s[3..])
  }

  lemma {:induction false} EncodeTriples(s: seq<byte>)
    ensures Encode(s) == Triples(s) + Encode(Left(s))
    decreases |s|
  {
    hide Chunk, Encode;
    if |s| < 3 {
      assert "" + Encode(s) == Encode(s);
    } else {
      EncodeThree(s);
      EncodeTriples(s[3..]);
      assert (Chunk(s[0], s[1], s[2], 3) + Triples(s[3..])) + Encode(Left(s)) == Chunk(s[0], s[1], s[2], 3) + (Triples(s[3..]) + Encode(Left(s)));
    }
  }

  lemma {:induction false} TriplesSnoc(s: seq<byte>, b: byte)
    ensures var l := Left(s);
            if |l| == 2 then Triples(s + [b]) == Triples(s) + Chunk(l[0], l[1], b, 3) && Left(s + [b]) == []
            else Triples(s + [b]) == Triples(s) && Left(s + [b]) == l + [b]
    decreases |s|
  {
    hide Chunk;
    if |s| >= 3 {
      assert (s + [b])[3..] == s[3..] + [b];
      TriplesSnoc(s[3..], b);
      var l := Left(s);
      if |l| == 2 {
        assert Chunk(s[0], s[1], s[2], 3) + (Triples(s[3..]) + Chunk(l[0], l[1], b, 3)) == Triples(s) + Chunk(l[0], l[1], b, 3);
      }
    } else if |s| == 2 {
      assert (s + [b])[3..] == [];
      assert Chunk(s[0], s[1], b, 3) + "" == "" + Chunk(s[0], s[1], b, 3);
    }
  }

  class Encoder {
    const chunk: array<byte>
    var chunkSize: nat
    var out: string
    ghost var fed: seq<byte>

    ghost predicate Valid()
      reads this, chunk
    {
      chunk.Length == 3 && chunkSize < 3 && out == Triples(fed) && chunk[..chunkSize] == Left(fed)
    }

    constructor ()
      ensures Valid() && fed == [] && fresh(chunk)
    {
      chunk := new byte[3];
      chunkSize := 0;
      out := "";
      fed := [];
    }

    method EmitCode(v: nat)
      requires v < 64
      modifies this`out
      ensures out == old(out) + [Code(v)]
    {
      out := out + [Code(v)];
    }

    method EmitChunk()
      requires chunk.Length == 3
      modifies this`out
      ensures out == old(out) + Chunk(chunk[0], chunk[1], chunk[2], chunkSize)
    {
      hide Code, First, Second, Third, Fourth;
      var a, b, c := chunk[0], chunk[1], chunk[2];
      EmitCode(First(a));
      EmitCode(Second(a, b));
      if chunkSize > 1 {
        EmitCode(Third(b, c));
      }
      if chunkSize > 2 {
        EmitCode(Fourth(c));
      }
    }

    method Put(b: byte)
      requires Valid()
      modifies this, chunk
      ensures Valid() && fed == old(fed) + [b]
    {
      hide Chunk, Triples, Left;
      TriplesSnoc(fed, b);
      ghost var l := Left(fed);
      chunk[chunkSize] := b;
      chunkSize := chunkSize + 1;
      fed := fed + [b];
      if chunkSize == 3 {
        assert chunk[0] == chunk[..2][0] && chunk[1] == chunk[..2][1];
        EmitChunk();
        chunkSize := 0;
      }
    }

    method Update(data: seq<byte>)
      requires Valid()
      modifies this, chunk
      ensures Valid() && fed == old(fed) + data
    {
      hide Triples, Left;
      for i := 0 to |data|
        invariant Valid() && fed == old(fed) + data[..i]
      {
        Put(data[i]);
        assert data[..i + 1] == data[..i] + [data[i]];
      }
      assert data[..|data|] == data;
    }

    /** However the bytes came in, the output is the encoding of all of them. */
    method Finish()
      requires Valid()
      modifies this, chunk
      ensures out == Encode(fed) && fed == old(fed)
    {
      hide Chunk, Triples, Left, Encode;
      EncodeTriples(fed);
      ghost var l := Left(fed);
      if chunkSize > 0 {
        if chunkSize == 1 { EncodeOne(l); } else { EncodeTwo(l); }
        forall k | chunkSize <= k < 3 { chunk[k] := 0; }
        EmitChunk();
        out := out + if chunkSize == 1 then "==" else "=";
      } else {
        NothingEncoded();
      }
    }
  }

  lemma NothingEncoded()
    ensures Encode([]) == ""
  {
  }

  /** Every split into updates gives the encoding of the whole. */
  method EncodeStream(pieces: seq<seq<byte>>) returns (out: string)
    ensures out == Encode(Flatten(pieces))
  {
    hide Encode, Flatten, Encoder.Valid;
    var e := new Encoder();
    NoPieces();
    for i := 0 to |pieces|
      invariant e.Valid() && fresh(e) && fresh(e.chunk) && e.fed == Flatten(pieces[..i])
    {
      assert pieces[..i + 1] == pieces[..i] + [pieces[i]];
      FlattenSnoc(pieces[..i], pieces[i]);
      e.Update(pieces[i]);
    }
    assert pieces[..|pieces|] == pieces;
    e.Finish();
    out := e.out;
  }

  // ----- the one-shot encoder

  /** Characters still to come after i bytes of the source, the padding among them. */
  ghost function ToCome(src: seq<byte>, i: nat): string {
    if i <= |src| then Encode(src[i..]) else if i == |src| + 1 then "=" else "=="
  }

  lemma NextThree(src: seq<byte>, i: nat)
    requires i < |src|
    ensures var b, c := (if i + 1 < |src| then src[i + 1] else 0), (if i + 2 < |src| then src[i + 2] else 0);
            ToCome(src, i) == Chunk(src[i], b, c, |src| - i) + ToCome(src, i + 3)
  {
    hide Chunk, Encode;
    var s := src[i..];
    if |s| == 1 {
      EncodeOne(s);
    } else if |s| == 2 {
      EncodeTwo(s);
    } else {
      EncodeThree(s);
      assert s[3..] == src[i + 3..];
      LongChunk(src[i], src[i + 1], src[i + 2], |s|);
    }
  }

  lemma LongChunk(a: byte, b: byte, c: byte, n: nat)
    requires n >= 3
    ensures Chunk(a, b, c, n) == Chunk(a, b, c, 3)
  {
  }

  lemma ChunkLength(a: byte, b: byte, c: byte, n: nat)
    requires n > 0
    ensures |Chunk(a, b, c, n)| == if n < 3 then n + 1 else 4
  {
  }

  method EncodeAll(src: seq<byte>) returns (dst: string)
    ensures dst == Encode(src) + [NUL]
  {
    hide Chunk, Encode, ToCome;
    dst := "";
    var i: nat := 0;
    StartToCome(src);
    while i < |src|
      invariant i < |src| + 3 && dst + ToCome(src, i) == Encode(src)
      invariant if i <= |src| then |dst| % 4 == 0 else (|dst| + (i - |src|)) % 4 == 0
    {
      var b: byte, c: byte := (if i + 1 >= |src| then 0 else src[i + 1]), (if i + 2 >= |src| then 0 else src[i + 2]);
      NextThree(src, i);
      ChunkLength(src[i], b, c, |src| - i);
      assert dst + (Chunk(src[i], b, c, |src| - i) + ToCome(src, i + 3)) == (dst + Chunk(src[i], b, c, |src| - i)) + ToCome(src, i + 3);
      dst := dst + Chunk(src[i], b, c, |src| - i);
      i := i + 3;
    }
    ghost var pad := i - |src|;
    EndToCome(src, i);
    while |dst| % 4 != 0
      invariant 0 <= pad <= 2 && (|dst| + pad) % 4 == 0
      invariant dst + (if pad == 0 then "" else if pad == 1 then "=" else "==") == Encode(src)
      decreases pad
    {
      assert pad == 2 ==> dst + "==" == (dst + "=") + "=";
      dst := dst + "=";
      pad := pad - 1;
    }
    assert pad == 0;
    dst := dst + [NUL];
  }

  lemma StartToCome(src: seq<byte>)
    ensures "" + ToCome(src, 0) == Encode(src)
  {
    hide Encode;
    assert src[0..] == src;
  }

  lemma EndToCome(src: seq<byte>, i: nat)
    requires |src| <= i < |src| + 3
    ensures ToCome(src, i) == if i == |src| then "" else if i == |src| + 1 then "=" else "=="
  {
    if i == |src| { NothingEncoded(); }
  }

  lemma NoPieces()
    ensures Flatten([]) == []
  {
  }

  // ----- the decoder

  const BAD := 255
  const PAD := 200

  /** The inverse table; the high bit of a character is ignored. */
  function FromCode(ch: char): nat {
    var x := ch as int % 128;
    if x == 43 then 62
    else if x == 47 then 63
    else if 48 <= x <= 57 then x - 48 + 52
    else if x == 61 then PAD
    else if 65 <= x <= 90 then x - 65
    else if 97 <= x <= 122 then x - 97 + 26
    else BAD
  }

  datatype Decoded = Decoded(bytes: seq<byte>, used: nat)

  /** Low eight bits of the shifted and joined parts. */
  function FirstByte(a: nat, b: nat): byte {
    (a * 4 + b / 16) % 256
  }

  function SecondByte(b: nat, c: nat): byte {
    (b % 16 * 16 + c / 4) % 256
  }

  function ThirdByte(c: nat, d: nat): byte {
    (c % 4 * 64 + d) % 256
  }

  predicate Readable(s: string) {
    |s| >= 4 && FromCode(s[0]) != BAD && FromCode(s[1]) != BAD && FromCode(s[2]) != BAD && FromCode(s[3]) != BAD
  }

  /** Bytes of a group; padding cuts it short. */
  function GroupBytes(a: nat, b: nat, c: nat, d: nat): seq<byte> {
    if a == PAD || b == PAD then []
    else if c == PAD then [FirstByte(a, b)]
    else if d == PAD then [FirstByte(a, b), SecondByte(b, c)]
    else [FirstByte(a, b), SecondByte(b, c), ThirdByte(c, d)]
  }

  predicate HasPad(a: nat, b: nat, c: nat, d: nat) {
    a == PAD || b == PAD || c == PAD || d == PAD
  }

  /** Decoded bytes and the number of characters consumed; a group with padding is the last. */
  function Decode(s: string): (r: Decoded)
    ensures r.used <= |s|
    decreases |s|
  {
    if !Readable(s) then Decoded([], 0)
    else
      var a, b, c, d := FromCode(s[0]), FromCode(s[1]), FromCode(s[2]), FromCode(s[3]);
      var r := if HasPad(a, b, c, d) then Decoded([], 0) else Decode(s[4..]);
      Decoded(GroupBytes(a, b, c, d) + r.bytes, 4 + r.used)
  }

  method DecodeGroup(a: nat, b: nat, c: nat, d: nat) returns (bytes: seq<byte>, last: bool)
    ensures bytes == GroupBytes(a, b, c, d) && last == HasPad(a, b, c, d)
  {
    hide FirstByte, SecondByte, ThirdByte;
    bytes := [];
    if a == PAD || b == PAD { return bytes, true; }
    bytes := bytes + [FirstByte(a, b)];
    if c == PAD { return bytes, true; }
    bytes := bytes + [SecondByte(b, c)];
    if d == PAD { return bytes, true; }
    bytes := bytes + [ThirdByte(c, d)];
    last := false;
  }

  /** The group at i and the rest. */
  lemma DecodeStep(s: string, i: nat, done: seq<byte>)
    requires i <= |s| && Readable(s[i..])
    ensures i + 4 <= |s|
    ensures var a, b, c, d := FromCode(s[i]), FromCode(s[i + 1]), FromCode(s[i + 2]), FromCode(s[i + 3]);
            var r := if HasPad(a, b, c, d) then Decoded([], 0) else Decode(s[i + 4..]);
            done + Decode(s[i..]).bytes == (done + GroupBytes(a, b, c, d)) + r.bytes && Decode(s[i..]).used == 4 + r.used
  {
    hide FromCode, GroupBytes, HasPad;
    assert s[i..][4..] == s[i + 4..];
  }

  method DecodeAll(s: string) returns (dst: seq<byte>, used: nat)
    ensures var r := Decode(s); dst == r.bytes + [0] && used == r.used
  {
    hide Decode, FromCode, GroupBytes, HasPad;
    dst, used := [], 0;
    ghost var all := Decode(s);
    assert s[0..] == s;
    var last := false;
    while !last && Readable(s[used..])
      invariant used <= |s|
      invariant !last ==> all.bytes == dst + Decode(s[used..]).bytes && all.used == used + Decode(s[used..]).used
      invariant last ==> all == Decoded(dst, used)
      decreases |s| - used
    {
      DecodeStep(s, used, dst);
      var bytes;
      bytes, last := DecodeGroup(FromCode(s[used]), FromCode(s[used + 1]), FromCode(s[used + 2]), FromCode(s[used + 3]));
      dst, used := dst + bytes, used + 4;
    }
    if !last { NothingDecoded(s[used..]); }
    dst := dst + [0];
  }

  lemma NothingDecoded(s: string)
    requires !Readable(s)
    ensures Decode(s) == Decoded([], 0)
  {
  }

  // ----- decoding undoes encoding

  lemma CodeInverse(v: nat)
    requires v < 64
    ensures FromCode(Code(v)) == v
  {
  }

  lemma SixTwo(a: nat, b: nat)
    requires a < 256 && b < 256
    ensures (a / 4 * 4 + (a % 4 * 16 + b / 16) / 16) % 256 == a
  {
    assert (a % 4 * 16 + b / 16) / 16 == a % 4;
  }

  lemma FourFour(a: nat, b: nat, c: nat)
    requires a < 256 && b < 256 && c < 256
    ensures ((a % 4 * 16 + b / 16) % 16 * 16 + (b % 16 * 4 + c / 64) / 4) % 256 == b
  {
    assert (a % 4 * 16 + b / 16) % 16 == b / 16;
    assert (b % 16 * 4 + c / 64) / 4 == b % 16;
  }

  lemma TwoSix(b: nat, c: nat)
    requires b < 256 && c < 256
    ensures ((b % 16 * 4 + c / 64) % 4 * 64 + c % 64) % 256 == c
  {
    assert (b % 16 * 4 + c / 64) % 4 == c / 64;
  }

  lemma ByteParts(a: byte, b: byte, c: byte)
    ensures FirstByte(First(a), Second(a, b)) == a
    ensures SecondByte(Second(a, b), Third(b, c)) == b
    ensures ThirdByte(Third(b, c), Fourth(c)) == c
  {
    SixTwo(a, b);
    FourFour(a, b, c);
    TwoSix(b, c);
  }

  lemma ChunkDecodes(a: byte, b: byte, c: byte, n: nat, t: string)
    requires 0 < n <= 3 && (n < 3 ==> c == 0) && (n < 2 ==> b == 0) && (n < 3 ==> t == "")
    ensures var s := Chunk(a, b, c, n) + (if n == 1 then "==" else if n == 2 then "=" else t);
            var r := Decode(t);
            Decode(s) == Decoded([a, b, c][..n] + r.bytes, 4 + r.used)
  {
    hide Code, FromCode, First, Second, Third, Fourth, FirstByte, SecondByte, ThirdByte;
    CodeInverse(First(a));
    CodeInverse(Second(a, b));
    CodeInverse(Third(b, c));
    CodeInverse(Fourth(c));
    ByteParts(a, b, c);
    PadCode();
    var s := Chunk(a, b, c, n) + (if n == 1 then "==" else if n == 2 then "=" else t);
    if n == 3 { assert s[4..] == t; } else { NothingDecoded(t); }
  }

  lemma PadCode()
    ensures FromCode('=') == PAD
  {
  }

  /** Every byte string is restored, and the whole text consumed. */
  lemma {:induction false} RoundTrip(s: seq<byte>)
    ensures Decode(Encode(s)) == Decoded(s, |Encode(s)|)
    decreases |s|
  {
    hide Chunk, Decode, Encode;
    if |s| == 0 {
      NothingEncoded();
      NothingDecoded("");
    } else if |s| == 1 {
      EncodeOne(s);
      ChunkDecodes(s[0], 0, 0, 1, "");
      ChunkLength(s[0], 0, 0, 1);
      NothingDecoded("");
      assert s == [s[0], 0, 0][..1];
    } else if |s| == 2 {
      EncodeTwo(s);
      ChunkDecodes(s[0], s[1], 0, 2, "");
      ChunkLength(s[0], s[1], 0, 2);
      NothingDecoded("");
      assert s == [s[0], s[1], 0][..2];
    } else {
      EncodeThree(s);
      RoundTrip(s[3..]);
      ChunkDecodes(s[0], s[1], s[2], 3, Encode(s[3..]));
      ChunkLength(s[0], s[1], s[2], 3);
      assert s == [s[0], s[1], s[2]] + s[3..];
    }
  }
}
