/**
 WebSocket frames (sections 5.2 to 5.4 of RFC 6455) as mongoose receives them.

 The receiver keeps its reassembly state inside the receive buffer: after a first
 fragment the buffer starts with the flags byte (opcode cleared), a four-byte
 little-endian size and that many bytes of payload collected so far; the bytes
 still to be parsed follow.
 */
module WebSocket {
  import opened Bytes

  // ----- the wire format

  datatype LengthForm = Short | Medium | Long

  /** One frame on the wire; an empty mask stands for an unmasked frame. */
  datatype Frame = Frame(flags: byte, form: LengthForm, mask: seq<byte>, payload: seq<byte>)

  predicate ValidFrame(f: Frame) {
    && (f.mask == [] || |f.mask| == 4)
    && match f.form
       case Short => |f.payload| < 126
       case Medium => |f.payload| < 0x1_0000
       case Long => |f.payload| < 0x8000_0000_0000_0000
  }

  function Masked(data: seq<byte>, mask: seq<byte>): (r: seq<byte>)
    requires mask == [] || |mask| == 4
    ensures |r| == |data|
  {
    if mask == [] then data
    else seq(|data|, i requires 0 <= i < |data| => Xor(data[i], mask[i % 4]))
  }

  lemma MaskedTwice(data: seq<byte>, mask: seq<byte>)
    requires mask == [] || |mask| == 4
    ensures Masked(Masked(data, mask), mask) == data
  {
    if mask != [] {
      forall i | 0 <= i < |data| ensures Masked(Masked(data, mask), mask)[i] == data[i] {
        XorCancel(data[i], mask[i % 4]);
      }
    }
  }

  /** Flags byte, length byte and extended length. */
  function LengthBytes(f: Frame): (s: seq<byte>)
    requires ValidFrame(f)
    ensures |s| == if f.form.Short? then 2 else if f.form.Medium? then 4 else 10
  {
    var bit := if f.mask == [] then 0 else 128;
    match f.form
    case Short => [f.flags, bit + |f.payload|]
    case Medium => [f.flags, bit + 126] + BeBytes(|f.payload|, 2)
    case Long => [f.flags, bit + 127] + BeBytes(|f.payload| / 0x1_0000_0000, 4) + BeBytes(|f.payload| % 0x1_0000_0000, 4)
  }

  function HeaderSize(f: Frame): nat
    requires ValidFrame(f)
  {
    |LengthBytes(f)| + |f.mask|
  }

  function Encode(f: Frame): (s: seq<byte>)
    requires ValidFrame(f)
    ensures |s| == HeaderSize(f) + |f.payload|
  {
    LengthBytes(f) + f.mask + Masked(f.payload, f.mask)
  }

  predicate ValidFrames(fs: seq<Frame>) {
    forall i :: 0 <= i < |fs| ==> ValidFrame(fs[i])
  }

  function Wire(fs: seq<Frame>): seq<byte>
    requires ValidFrames(fs)
  {
    if fs == [] then [] else Encode(fs[0]) + Wire(fs[1..])
  }

  // ----- one call of the receiver, as a function of the buffer contents

  datatype Message = Message(flags: byte, data: seq<byte>)

  predicate IsFragment(flags: byte) {
    flags < 128 || flags % 16 == 0
  }

  predicate IsFirstFragment(flags: byte) {
    flags < 128 && flags % 16 != 0
  }

  /** What the first bytes of a frame say; size 0 when they have not all arrived. */
  datatype Header = Header(size: nat, maskSize: nat, dataSize: nat)

  function ParseHeader(buf: seq<byte>): (h: Header)
    ensures h.size > 0 ==> 2 + h.maskSize <= h.size <= 14
    ensures h.size == 0 ==> h.dataSize == 0
    ensures h.maskSize == 0 || h.maskSize == 4
  {
    if |buf| < 2 then Header(0, 0, 0)
    else
      var len := buf[1] % 128;
      var maskSize := if buf[1] >= 128 then 4 else 0;
      if len < 126 && |buf| >= maskSize then
        Header(2 + maskSize, maskSize, len)
      else if len == 126 && |buf| >= 4 + maskSize then
        Header(4 + maskSize, maskSize, BeValue(buf[2..4]))
      else if |buf| >= 10 + maskSize then
        Header(10 + maskSize, maskSize, BeValue(buf[2..6]) * 0x1_0000_0000 + BeValue(buf[6..10]))
      else Header(0, maskSize, 0)
  }

  /** Length of the frame in 64-bit arithmetic. */
  function FrameSize(h: Header): nat {
    (h.size + h.dataSize) % 0x1_0000_0000_0000_0000
  }

  predicate Complete(h: Header, available: nat) {
    0 < FrameSize(h) <= available
  }

  predicate Reassembles(p: seq<byte>, defrag: bool) {
    defrag && |p| > 0 && IsFragment(p[0])
  }

  /** Size field of a reassembly record at the start of the buffer. */
  function StoredSize(p: seq<byte>): nat {
    if |p| >= 5 then LeValue(p[1..5]) else 0
  }

  /** Number of bytes of reassembly record in front of the unparsed bytes. */
  function Skipped(p: seq<byte>, defrag: bool): (n: nat)
    ensures n <= |p|
    ensures n == 0 || 5 <= n
  {
    if Reassembles(p, defrag) && !IsFirstFragment(p[0]) && |p| >= 5 && |p| >= 5 + StoredSize(p)
    then 5 + StoredSize(p)
    else 0
  }

  function Record(head: byte, acc: seq<byte>): (r: seq<byte>)
    ensures |r| == 5 + |acc| && r[0] == head
  {
    [head] + LeBytes(|acc|, 4) + acc
  }

  /** The first k bytes are zero, or all when there are fewer. */
  function Zeroed(s: seq<byte>, k: nat): (r: seq<byte>)
    ensures |r| == |s|
  {
    var n := if k < |s| then k else |s|;
    Zeros(n) + s[n..]
  }

  /**
   Wait: no complete frame is buffered.
   Next: a frame was consumed, leaving `rest`, with at most one message delivered.
   Undefined: a size wraps round, or a continuation comes without a record, and the C code
   runs past its buffer.
   */
  datatype Outcome = Wait | Next(rest: seq<byte>, delivered: seq<Message>) | Undefined

  /**
   Consumes the frame of header h that starts skip bytes into the buffer.  The record of a
   first fragment takes five bytes: when the header has fewer, what follows it moves up and
   its first bytes are lost to the size field.
   */
  function Consume(p: seq<byte>, skip: nat, h: Header, reass: bool): (r: Outcome)
    requires skip == 0 || 5 <= skip
    requires 2 + h.maskSize <= h.size && skip + h.size + h.dataSize <= |p|
    requires h.maskSize == 0 || h.maskSize == 4
    ensures !r.Wait?
  {
    var start := skip + h.size;
    var data := Masked(p[start..start + h.dataSize], p[start - h.maskSize..start]);
    var tail := p[start + h.dataSize..];
    var flags := p[skip];
    if !reass then
      Next(tail, [Message(flags, data)])
    else if IsFirstFragment(flags) then
      if h.dataSize >= 0x1_0000_0000 then Undefined
      else if start < 5 then Next(Moved(p[0] - p[0] % 16, p[start..], h.dataSize, 5 - start), [])
      else Next(Record(p[0] - p[0] % 16, data) + tail, [])
    else if skip == 0 || skip - 5 + h.dataSize >= 0x1_0000_0000 then Undefined
    else if flags < 128 then
      Next(Record(p[0], p[5..skip] + data) + tail, [])
    else
      Next(tail, [Message(flags, p[5..skip] + data)])
  }

  /** A record of n bytes in front of bytes whose first k were overwritten. */
  function Moved(head: byte, s: seq<byte>, n: nat, k: nat): seq<byte>
    requires n <= |s|
  {
    var z := Zeroed(s, k);
    Record(head, z[..n]) + z[n..]
  }

  function Step(p: seq<byte>, defrag: bool): Outcome {
    var skip := Skipped(p, defrag);
    var h := ParseHeader(p[skip..]);
    if !Complete(h, |p| - skip) then Wait
    else if h.size + h.dataSize >= 0x1_0000_0000_0000_0000 then Undefined
    else Consume(p, skip, h, Reassembles(p, defrag))
  }

  /** Bytes behind the record. */
  function Unparsed(p: seq<byte>, defrag: bool): nat {
    |p| - Skipped(p, defrag)
  }

  lemma RecordUnparsed(head: byte, acc: seq<byte>, raw: seq<byte>)
    requires head % 16 == 0 && |acc| < 0x1_0000_0000
    ensures Unparsed(Record(head, acc) + raw, true) == |raw|
  {
    hide Skipped;
    RecordSkipped(head, acc, raw);
  }

  lemma ConsumeProgress(p: seq<byte>, skip: nat, h: Header, defrag: bool)
    requires skip == Skipped(p, defrag)
    requires 2 + h.maskSize <= h.size && skip + h.size + h.dataSize <= |p|
    requires h.maskSize == 0 || h.maskSize == 4
    ensures var r := Consume(p, skip, h, Reassembles(p, defrag));
            r.Next? ==> Unparsed(r.rest, defrag) < Unparsed(p, defrag)
  {
    hide Masked, Record, Zeroed, Skipped;
    var start := skip + h.size;
    var data := Masked(p[start..start + h.dataSize], p[start - h.maskSize..start]);
    var tail := p[start + h.dataSize..];
    if Reassembles(p, defrag) && Consume(p, skip, h, true).Next? {
      FragmentKinds(p[0]);
      FragmentKinds(p[skip]);
      if IsFirstFragment(p[skip]) {
        if start < 5 {
          var z := Zeroed(p[start..], 5 - start);
          RecordUnparsed(p[0] - p[0] % 16, z[..h.dataSize], z[h.dataSize..]);
        } else {
          RecordUnparsed(p[0] - p[0] % 16, data, tail);
        }
      } else if p[skip] < 128 {
        SkippedFragment(p, defrag);
        RecordUnparsed(p[0], p[5..skip] + data, tail);
      }
    }
  }

  lemma FragmentKinds(flags: byte)
    ensures (flags - flags % 16) % 16 == 0
    ensures IsFragment(flags) && !IsFirstFragment(flags) ==> flags % 16 == 0
  {
  }

  lemma SkippedFragment(p: seq<byte>, defrag: bool)
    ensures Skipped(p, defrag) > 0 ==> p != [] && IsFragment(p[0]) && !IsFirstFragment(p[0])
  {
  }

  /** Every step leaves fewer bytes to parse, so the delivery loop ends. */
  lemma StepProgress(p: seq<byte>, defrag: bool)
    ensures Step(p, defrag).Next? ==> Unparsed(Step(p, defrag).rest, defrag) < Unparsed(p, defrag)
  {
    hide Consume, Unparsed, Skipped, ParseHeader;
    var skip := Skipped(p, defrag);
    var h := ParseHeader(p[skip..]);
    if Complete(h, |p| - skip) && h.size + h.dataSize < 0x1_0000_0000_0000_0000 {
      ConsumeProgress(p, skip, h, defrag);
    }
  }

  // ----- the receive loop

  /** Every step was defined; steady: and none of them was early. */
  datatype Drained = Drained(rest: seq<byte>, delivered: seq<Message>, defined: bool, steady: bool)

  /** A first fragment is consumed while the buffer is shorter than the record it makes. */
  predicate Early(p: seq<byte>, defrag: bool) {
    |p| < 5 && Reassembles(p, defrag) && IsFirstFragment(p[0])
  }

  /** Calls the receiver until it has no complete frame. */
  function Drain(p: seq<byte>, defrag: bool): Drained
    decreases Unparsed(p, defrag)
  {
    StepProgress(p, defrag);
    match Step(p, defrag)
    case Wait => Drained(p, [], true, true)
    case Undefined => Drained(p, [], false, false)
    case Next(rest, ms) =>
      var d := Drain(rest, defrag);
      Drained(d.rest, ms + d.delivered, d.defined, d.steady && !Early(p, defrag))
  }

  /** A connection's life: one drain per receive event. */
  function Run(events: seq<seq<byte>>, defrag: bool): Drained {
    if events == [] then Drained([], [], true, true)
    else
      var before := Run(events[..|events| - 1], defrag);
      if !before.defined then before
      else
        var now := Drain(before.rest + events[|events| - 1], defrag);
        Drained(now.rest, before.delivered + now.delivered, now.defined, before.steady && now.steady)
  }

  // ----- arrival does not matter

  lemma HeaderStable(buf: seq<byte>, more: seq<byte>)
    requires ParseHeader(buf).size > 0
    ensures ParseHeader(buf + more) == ParseHeader(buf)
  {
    if |buf| >= 4 { assert (buf + more)[2..4] == buf[2..4]; }
    if |buf| >= 10 {
      assert (buf + more)[2..6] == buf[2..6] && (buf + more)[6..10] == buf[6..10];
    }
  }

  lemma SkippedStable(p: seq<byte>, more: seq<byte>, defrag: bool)
    requires p != []
    requires Skipped(p, defrag) > 0 || !Reassembles(p, defrag) || IsFirstFragment(p[0])
    ensures Skipped(p + more, defrag) == Skipped(p, defrag)
  {
    if |p| >= 5 { assert (p + more)[1..5] == p[1..5]; }
  }

  lemma Associative(a: seq<byte>, b: seq<byte>, c: seq<byte>)
    ensures a + (b + c) == (a + b) + c
  {
  }

  lemma ConsumeWhole(p: seq<byte>, skip: nat, h: Header)
    requires FrameFits(p, skip, h)
    ensures var start := skip + h.size;
            var data := Masked(p[start..start + h.dataSize], p[start - h.maskSize..start]);
            Consume(p, skip, h, false) == Next(p[start + h.dataSize..], [Message(p[skip], data)])
  {
    hide Masked;
  }

  lemma ConsumeFirst(p: seq<byte>, skip: nat, h: Header)
    requires FrameFits(p, skip, h) && IsFirstFragment(p[skip]) && h.dataSize < 0x1_0000_0000 && 5 <= skip + h.size
    ensures var start := skip + h.size;
            var data := Masked(p[start..start + h.dataSize], p[start - h.maskSize..start]);
            Consume(p, skip, h, true) == Next(Record(p[0] - p[0] % 16, data) + p[start + h.dataSize..], [])
  {
    hide Masked, Record, Moved;
  }

  lemma ConsumeShort(p: seq<byte>, h: Header)
    requires FrameFits(p, 0, h) && IsFirstFragment(p[0]) && h.dataSize < 0x1_0000_0000 && h.size < 5
    ensures Consume(p, 0, h, true) == Next(Moved(p[0] - p[0] % 16, p[h.size..], h.dataSize, 5 - h.size), [])
  {
    hide Masked, Record, Moved;
  }

  lemma ConsumeNext(p: seq<byte>, skip: nat, h: Header)
    requires FrameFits(p, skip, h) && !IsFirstFragment(p[skip]) && 5 <= skip && skip - 5 + h.dataSize < 0x1_0000_0000
    ensures var start := skip + h.size;
            var data := Masked(p[start..start + h.dataSize], p[start - h.maskSize..start]);
            var tail := p[start + h.dataSize..];
            Consume(p, skip, h, true) ==
            if p[skip] < 128 then Next(Record(p[0], p[5..skip] + data) + tail, []) else Next(tail, [Message(p[skip], p[5..skip] + data)])
  {
    hide Masked, Record;
  }

  /** A frame with header h lies in the buffer behind skip bytes. */
  predicate FrameFits(p: seq<byte>, skip: nat, h: Header) {
    && (skip == 0 || 5 <= skip)
    && 2 + h.maskSize <= h.size && skip + h.size + h.dataSize <= |p|
    && (h.maskSize == 0 || h.maskSize == 4)
  }

  lemma WhenDefined(p: seq<byte>, skip: nat, h: Header, reass: bool)
    requires FrameFits(p, skip, h) && Consume(p, skip, h, reass).Next? && reass
    ensures if IsFirstFragment(p[skip]) then h.dataSize < 0x1_0000_0000 else 5 <= skip && skip - 5 + h.dataSize < 0x1_0000_0000
  {
    hide Masked, Record, Moved;
  }

  lemma ConsumeStable(p: seq<byte>, more: seq<byte>, skip: nat, h: Header, reass: bool)
    requires FrameFits(p, skip, h) && Consume(p, skip, h, reass).Next?
    requires reass && IsFirstFragment(p[skip]) ==> 5 <= |p|
    ensures var r := Consume(p, skip, h, reass);
            Consume(p + more, skip, h, reass) == Next(r.rest + more, r.delivered)
  {
    hide Masked, Consume, IsFirstFragment;
    if !reass {
      FrameParts(p, more, skip, h);
      ConsumeWhole(p, skip, h);
      ConsumeWhole(p + more, skip, h);
    } else {
      WhenDefined(p, skip, h, reass);
      if IsFirstFragment(p[skip]) { FirstStable(p, more, skip, h); } else { NextStable(p, more, skip, h); }
    }
  }

  lemma FirstStable(p: seq<byte>, more: seq<byte>, skip: nat, h: Header)
    requires FrameFits(p, skip, h) && IsFirstFragment(p[skip]) && h.dataSize < 0x1_0000_0000 && 5 <= |p|
    ensures var r := Consume(p, skip, h, true);
            Consume(p + more, skip, h, true) == Next(r.rest + more, r.delivered)
  {
    hide Masked, Record, Moved, Consume, IsFirstFragment;
    if skip + h.size < 5 { ShortStable(p, more, h); } else { LongStable(p, more, skip, h); }
  }

  lemma ShortStable(p: seq<byte>, more: seq<byte>, h: Header)
    requires FrameFits(p, 0, h) && IsFirstFragment(p[0]) && h.dataSize < 0x1_0000_0000 && h.size < 5 <= |p|
    ensures var r := Consume(p, 0, h, true);
            Consume(p + more, 0, h, true) == Next(r.rest + more, r.delivered)
  {
    hide Moved, Consume;
    ConsumeShort(p, h);
    ConsumeShort(p + more, h);
    assert (p + more)[h.size..] == p[h.size..] + more;
    MovedStable(p[0] - p[0] % 16, p[h.size..], more, h.dataSize, 5 - h.size);
  }

  lemma LongStable(p: seq<byte>, more: seq<byte>, skip: nat, h: Header)
    requires FrameFits(p, skip, h) && IsFirstFragment(p[skip]) && h.dataSize < 0x1_0000_0000 && 5 <= skip + h.size
    ensures var r := Consume(p, skip, h, true);
            Consume(p + more, skip, h, true) == Next(r.rest + more, r.delivered)
  {
    hide Masked, Record, Consume;
    ConsumeFirst(p, skip, h);
    ConsumeFirst(p + more, skip, h);
    RecordStable(p[0] - p[0] % 16, p, more, skip, h);
  }

  lemma RecordStable(head: byte, p: seq<byte>, more: seq<byte>, skip: nat, h: Header)
    requires FrameFits(p, skip, h)
    ensures var start, q := skip + h.size, p + more;
            Record(head, Masked(q[start..start + h.dataSize], q[start - h.maskSize..start])) + q[start + h.dataSize..] ==
            (Record(head, Masked(p[start..start + h.dataSize], p[start - h.maskSize..start])) + p[start + h.dataSize..]) + more
  {
    hide Masked, Record;
    FrameParts(p, more, skip, h);
    var start := skip + h.size;
    Associative(Record(head, Masked(p[start..start + h.dataSize], p[start - h.maskSize..start])), p[start + h.dataSize..], more);
  }

  lemma NextStable(p: seq<byte>, more: seq<byte>, skip: nat, h: Header)
    requires FrameFits(p, skip, h) && !IsFirstFragment(p[skip]) && 5 <= skip && skip - 5 + h.dataSize < 0x1_0000_0000
    ensures var r := Consume(p, skip, h, true);
            Consume(p + more, skip, h, true) == Next(r.rest + more, r.delivered)
  {
    hide Masked, Record, Consume, IsFirstFragment;
    FrameParts(p, more, skip, h);
    var start := skip + h.size;
    var data := Masked(p[start..start + h.dataSize], p[start - h.maskSize..start]);
    ConsumeNext(p, skip, h);
    ConsumeNext(p + more, skip, h);
    Associative(Record(p[0], p[5..skip] + data), p[start + h.dataSize..], more);
  }

  lemma FrameParts(p: seq<byte>, more: seq<byte>, skip: nat, h: Header)
    requires FrameFits(p, skip, h)
    ensures var start, q := skip + h.size, p + more;
            && q[start..start + h.dataSize] == p[start..start + h.dataSize]
            && q[start - h.maskSize..start] == p[start - h.maskSize..start]
            && q[start + h.dataSize..] == p[start + h.dataSize..] + more
            && q[start..] == p[start..] + more
            && q[skip] == p[skip] && q[0] == p[0]
            && (skip > 0 ==> q[5..skip] == p[5..skip])
  {
    var start := skip + h.size;
    SliceWithin(p, more, start, start + h.dataSize);
    SliceWithin(p, more, start - h.maskSize, start);
    DropWithin(p, more, start + h.dataSize);
    DropWithin(p, more, start);
    if skip > 0 { SliceWithin(p, more, 5, skip); }
  }

  lemma MovedStable(head: byte, s: seq<byte>, more: seq<byte>, n: nat, k: nat)
    requires n <= |s| && k <= |s|
    ensures Moved(head, s + more, n, k) == Moved(head, s, n, k) + more
  {
    hide Record;
    var z := Zeroed(s, k);
    assert (s + more)[k..] == s[k..] + more;
    assert Zeroed(s + more, k) == z + more;
    assert (z + more)[..n] == z[..n] && (z + more)[n..] == z[n..] + more;
    Associative(Record(head, z[..n]), z[n..], more);
  }

  /** A frame that is consumed is consumed in the same way when more bytes follow, unless it was early. */
  lemma StepStable(p: seq<byte>, more: seq<byte>, defrag: bool)
    requires Step(p, defrag).Next? && !Early(p, defrag)
    ensures Step(p + more, defrag) == Next(Step(p, defrag).rest + more, Step(p, defrag).delivered)
  {
    hide ParseHeader, Skipped, Consume;
    var skip := Skipped(p, defrag);
    var h := ParseHeader(p[skip..]);
    if Reassembles(p, defrag) { WhenDefined(p, skip, h, true); }
    SkippedFragment(p, defrag);
    SkippedStable(p, more, defrag);
    assert (p + more)[skip..] == p[skip..] + more;
    HeaderStable(p[skip..], more);
    ConsumeStable(p, more, skip, h, Reassembles(p, defrag));
  }

  lemma ZeroedAll(s: seq<byte>, n: nat, k: nat)
    requires n == |s| <= k
    ensures Zeroed(s, k) == Zeros(n)
  {
    hide Zeros;
    assert s[n..] == [];
    assert Zeros(n) + [] == Zeros(n);
  }

  lemma ZeroedJoin(s: seq<byte>, n: nat, more: seq<byte>, k: nat)
    requires n == |s|
    ensures Zeroed(s + more, n + k) == Zeros(n) + Zeroed(more, k)
  {
    hide Zeros, Zeroed;
    if |more| <= k {
      ZeroedAll(s + more, n + |more|, n + k);
      ZeroedAll(more, |more|, k);
      ZerosJoin(n, |more|);
    } else {
      ZeroedSome(s + more, n + k);
      ZeroedSome(more, k);
      ZerosJoin(n, k);
      DropBehind(s, more, n + k);
      Associative(Zeros(n), Zeros(k), more[k..]);
    }
  }

  lemma DropBehind(a: seq<byte>, b: seq<byte>, k: nat)
    requires |a| <= k <= |a| + |b|
    ensures (a + b)[k..] == b[k - |a|..]
  {
  }

  lemma DropWithin(a: seq<byte>, b: seq<byte>, k: nat)
    requires k <= |a|
    ensures (a + b)[k..] == a[k..] + b
  {
  }

  lemma SliceWithin(a: seq<byte>, b: seq<byte>, i: nat, j: nat)
    requires i <= j <= |a|
    ensures (a + b)[i..j] == a[i..j]
  {
  }

  lemma ZeroedSome(s: seq<byte>, k: nat)
    requires k < |s|
    ensures Zeroed(s, k) == Zeros(k) + s[k..]
  {
    hide Zeros;
  }

  /** What an early first fragment leaves, with the bytes that come next in the buffer or not. */
  lemma MovedEarly(head: byte, s: seq<byte>, more: seq<byte>, n: nat, k: nat)
    requires n <= |s|
    ensures Moved(head, s + more, n, |s| + k) == Moved(head, s, n, |s| + k) + Zeroed(more, k)
  {
    hide Record, Zeros, Zeroed;
    ZeroedAll(s, |s|, |s| + k);
    ZeroedJoin(s, |s|, more, k);
    var z, w := Zeros(|s|), Zeroed(more, k);
    SliceWithin(z, w, 0, n);
    DropWithin(z, w, n);
    Associative(Record(head, z[..n]), z[n..], w);
  }

  lemma EarlyStep(p: seq<byte>, more: seq<byte>)
    requires Early(p, true) && Step(p, true).Next?
    ensures Step(p + more, true) == Next(Step(p, true).rest + Zeroed(more, 5 - |p|), Step(p, true).delivered)
  {
    hide ParseHeader, Consume, Moved, Zeroed;
    assert p[0..] == p && (p + more)[0..] == p + more;
    var h := ParseHeader(p);
    HeaderStable(p, more);
    WhenDefined(p, 0, h, true);
    ConsumeShort(p, h);
    ConsumeShort(p + more, h);
    assert (p + more)[h.size..] == p[h.size..] + more;
    assert |p[h.size..]| + (5 - |p|) == 5 - h.size;
    MovedEarly(p[0] - p[0] % 16, p[h.size..], more, h.dataSize, 5 - |p|);
  }

  /** A step is the same with more bytes behind it exactly when it is not early or the bytes it overwrites are zero. */
  lemma StableExactly(p: seq<byte>, more: seq<byte>, defrag: bool)
    requires Step(p, defrag).Next?
    ensures Step(p + more, defrag) == Next(Step(p, defrag).rest + more, Step(p, defrag).delivered)
       <==> !Early(p, defrag) || Zeroed(more, 5 - |p|) == more
  {
    hide Step, Zeroed;
    if Early(p, defrag) {
      EarlyStep(p, more);
      var rest := Step(p, true).rest;
      assert (rest + more)[|rest|..] == more && (rest + Zeroed(more, 5 - |p|))[|rest|..] == Zeroed(more, 5 - |p|);
    } else {
      StepStable(p, more, defrag);
    }
  }

  lemma DrainNext(p: seq<byte>, defrag: bool)
    requires Step(p, defrag).Next?
    ensures var s := Step(p, defrag);
            var d := Drain(s.rest, defrag);
            Drain(p, defrag) == Drained(d.rest, s.delivered + d.delivered, d.defined, d.steady && !Early(p, defrag))
  {
    hide Step;
  }

  lemma DrainStops(p: seq<byte>, defrag: bool)
    requires !Step(p, defrag).Next?
    ensures var ok := Step(p, defrag).Wait?; Drain(p, defrag) == Drained(p, [], ok, ok)
  {
    hide Step;
  }

  lemma EarlyStable(p: seq<byte>, more: seq<byte>, defrag: bool)
    requires Step(p, defrag).Next? && !Early(p, defrag)
    ensures !Early(p + more, defrag)
  {
    hide Consume;
  }

  lemma {:induction false} DrainAppend(p: seq<byte>, more: seq<byte>, defrag: bool)
    requires Drain(p, defrag).defined && Drain(p, defrag).steady
    ensures var d := Drain(p, defrag);
            var e := Drain(d.rest + more, defrag);
            Drain(p + more, defrag) == Drained(e.rest, d.delivered + e.delivered, e.defined, e.steady)
    decreases Unparsed(p, defrag)
  {
    hide Step, Unparsed, Drain, Early;
    var s := Step(p, defrag);
    if s.Next? {
      DrainNext(p, defrag);
      StepProgress(p, defrag);
      StepStable(p, more, defrag);
      EarlyStable(p, more, defrag);
      DrainNext(p + more, defrag);
      DrainAppend(s.rest, more, defrag);
      var d := Drain(s.rest, defrag);
      var e := Drain(d.rest + more, defrag);
      assert s.delivered + (d.delivered + e.delivered) == (s.delivered + d.delivered) + e.delivered;
    } else {
      DrainStops(p, defrag);
      assert [] + Drain(p + more, defrag).delivered == Drain(p + more, defrag).delivered;
    }
  }

  /**
   What is delivered and kept does not depend on how a byte stream was cut into events, as
   long as every step of the run is defined and none is early.
   */
  lemma {:induction false} ArrivalIndependent(events: seq<seq<byte>>, defrag: bool)
    requires Run(events, defrag).defined && Run(events, defrag).steady
    ensures Run(events, defrag) == Drain(Flatten(events), defrag)
  {
    hide Drain, Flatten;
    if events == [] {
      NothingDrains(defrag);
    } else {
      var n := |events| - 1;
      ArrivalIndependent(events[..n], defrag);
      assert events == events[..n] + [events[n]];
      FlattenSnoc(events[..n], events[n]);
      DrainAppend(Flatten(events[..n]), events[n], defrag);
    }
  }

  lemma NothingDrains(defrag: bool)
    ensures Flatten([]) == [] && Drain([], defrag) == Drained([], [], true, true)
  {
  }

  // ----- an early step: the same bytes, cut differently, are not delivered alike

  const RECORD: seq<byte> := [0, 0, 0, 0, 0]

  lemma EmptyRecord()
    ensures Record(0, []) == RECORD && LeValue(RECORD[1..5]) == 0
  {
    assert LeBytes(0, 4) == [0, 0, 0, 0] by { assert LeBytes(0, 2) == [0, 0]; }
    assert RECORD[1..5] == LeBytes(0, 4);
    PowersOf256();
    LeRoundTrip(0, 4);
  }

  /** An empty first fragment at the start of a buffer. */
  lemma EmptyFragment(tail: seq<byte>)
    ensures Step([1, 0] + tail, true) == Next(RECORD + Zeroed(tail, 3), [])
  {
    hide Zeroed, ParseHeader, Consume, Moved, Masked;
    var p := [1, 0] + tail;
    assert p[0..] == p && p[2..] == tail;
    EmptyHeader(tail);
    ConsumeShort(p, Header(2, 0, 0));
    EmptyMoved(tail);
  }

  lemma EmptyHeader(tail: seq<byte>)
    ensures ParseHeader([1, 0] + tail) == Header(2, 0, 0)
  {
  }

  lemma EmptyMoved(tail: seq<byte>)
    ensures Moved(0, tail, 0, 3) == RECORD + Zeroed(tail, 3)
  {
    hide Zeroed;
    EmptyRecord();
    assert Zeroed(tail, 3)[..0] == [] && Zeroed(tail, 3)[0..] == Zeroed(tail, 3);
  }

  /** A short frame behind an empty record. */
  lemma BehindRecord(raw: seq<byte>)
    ensures Skipped(RECORD + raw, true) == 5 && (RECORD + raw)[5..] == raw
  {
    EmptyRecord();
    assert (RECORD + raw)[1..5] == RECORD[1..5];
  }

  lemma LastByte()
    ensures Step(RECORD + [0x80, 1, 0x41], true) == Next([], [Message(0x80, [0x41])])
  {
    var raw: seq<byte> := [0x80, 1, 0x41];
    var p := RECORD + raw;
    hide Skipped, Record;
    BehindRecord(raw);
    assert ParseHeader(raw) == Header(2, 0, 1);
    assert p[7..8] == [0x41] && p[8..] == [] && p[7..7] == [] && p[5..5] == [];
    assert [] + [0x41] == [0x41];
  }

  lemma LostByte()
    ensures Step(RECORD + [0, 0, 0], true) == Next(RECORD + [0], [])
  {
    var raw: seq<byte> := [0, 0, 0];
    var p := RECORD + raw;
    hide Skipped;
    BehindRecord(raw);
    EmptyRecord();
    assert ParseHeader(raw) == Header(2, 0, 0);
    assert p[7..7] == [] && p[7..] == [0] && p[5..5] == [] && p[5..5] + p[7..7] == [];
  }

  lemma RecordWaits(raw: seq<byte>)
    requires |raw| < 2
    ensures Step(RECORD + raw, true) == Wait
  {
    hide Skipped;
    BehindRecord(raw);
  }

  /** Alone, the fragment is kept and the message delivered; with the next frame behind it, that frame is lost. */
  lemma EarlyMatters()
    ensures Drain([1, 0], true) == Drained(RECORD, [], true, false)
    ensures Drain(RECORD + [0x80, 1, 0x41], true).delivered == [Message(0x80, [0x41])]
    ensures Drain([1, 0, 0x80, 1, 0x41], true).delivered == []
  {
    hide Step, Drain;
    assert [1, 0] + [] == [1, 0] && Zeroed([], 3) == [] && RECORD + [] == RECORD;
    EmptyFragment([]);
    DrainNext([1, 0], true);
    RecordWaits([]);
    DrainStops(RECORD, true);
    LastByte();
    DrainNext(RECORD + [0x80, 1, 0x41], true);
    NothingDrains(true);
    var tail: seq<byte> := [0x80, 1, 0x41];
    assert [1, 0] + tail == [1, 0, 0x80, 1, 0x41];
    assert Zeroed(tail, 3) == [0, 0, 0];
    EmptyFragment(tail);
    DrainNext([1, 0] + tail, true);
    LostByte();
    DrainNext(RECORD + [0, 0, 0], true);
    RecordWaits([0]);
    DrainStops(RECORD + [0], true);
  }

  // ----- what a peer that follows the protocol sends

  /** Payload collected since a first fragment. */
  datatype Pending = Idle | Partial(head: byte, acc: seq<byte>)

  function Held(pd: Pending): seq<byte> {
    match pd
    case Idle => []
    case Partial(head, acc) => Record(head, acc)
  }

  predicate ValidPending(pd: Pending) {
    pd.Partial? ==> pd.head < 128 && pd.head % 16 == 0 && |pd.acc| < 0x1_0000_0000
  }

  /** The payload bytes of a first fragment that the record overwrites: it takes five bytes, the header may have two or four. */
  function Overwritten(f: Frame): nat {
    if f.mask != [] || f.form.Long? then 0 else if f.form.Medium? then 1 else 3
  }

  /** What the record keeps of a first fragment. */
  function Kept(f: Frame): (s: seq<byte>)
    ensures |s| == |f.payload|
  {
    Zeroed(f.payload, Overwritten(f))
  }

  /**
   A frame that may come next: unfragmented or a first fragment when no message is
   open, a continuation otherwise.  A first fragment has at least the bytes that the
   record overwrites.
   */
  predicate Allowed(f: Frame, pd: Pending) {
    && ValidFrame(f)
    && match pd
       case Idle => !IsFragment(f.flags) || (IsFirstFragment(f.flags) && Overwritten(f) <= |f.payload| < 0x1_0000_0000)
       case Partial(_, acc) => f.flags % 16 == 0 && |acc| + |f.payload| < 0x1_0000_0000
  }

  function After(f: Frame, pd: Pending): Pending {
    match pd
    case Idle => if IsFragment(f.flags) then Partial(f.flags - f.flags % 16, Kept(f)) else Idle
    case Partial(head, acc) => if f.flags >= 128 then Idle else Partial(head, acc + f.payload)
  }

  function Emitted(f: Frame, pd: Pending): seq<Message> {
    match pd
    case Idle => if IsFragment(f.flags) then [] else [Message(f.flags, f.payload)]
    case Partial(_, acc) => if f.flags >= 128 then [Message(f.flags, acc + f.payload)] else []
  }

  predicate InOrder(fs: seq<Frame>, pd: Pending): (b: bool)
    ensures b ==> ValidFrames(fs)
  {
    fs == [] || (Allowed(fs[0], pd) && InOrder(fs[1..], After(fs[0], pd)))
  }

  // ----- decoding

  lemma HeaderOf(f: Frame, more: seq<byte>)
    requires ValidFrame(f)
    ensures ParseHeader(Encode(f) + more) == Header(HeaderSize(f), |f.mask|, |f.payload|)
  {
    hide Masked, BeValue, BeBytes, Pow256;
    var buf := Encode(f) + more;
    assert buf[..|LengthBytes(f)|] == LengthBytes(f);
    assert buf[1] == LengthBytes(f)[1];
    PowersOf256();
    match f.form
    case Short =>
    case Medium =>
      assert buf[2..4] == BeBytes(|f.payload|, 2);
      BeRoundTrip(|f.payload|, 2);
    case Long =>
      assert buf[2..6] == BeBytes(|f.payload| / 0x1_0000_0000, 4);
      assert buf[6..10] == BeBytes(|f.payload| % 0x1_0000_0000, 4);
      BeRoundTrip(|f.payload| / 0x1_0000_0000, 4);
      BeRoundTrip(|f.payload| % 0x1_0000_0000, 4);
  }

  /** A proper prefix of a frame is never taken for a frame. */
  lemma PrefixWaits(f: Frame, part: seq<byte>)
    requires ValidFrame(f) && part < Encode(f)
    ensures !Complete(ParseHeader(part), |part|)
  {
    hide ParseHeader, Encode;
    var h := ParseHeader(part);
    var rest := Encode(f)[|part|..];
    assert part + rest == Encode(f) == Encode(f) + [];
    if h.size > 0 {
      HeaderStable(part, rest);
      HeaderOf(f, []);
    }
  }

  lemma RecordSkipped(head: byte, acc: seq<byte>, raw: seq<byte>)
    requires head % 16 == 0 && |acc| < 0x1_0000_0000
    ensures var p := Record(head, acc) + raw;
            && Skipped(p, true) == 5 + |acc|
            && StoredSize(p) == |acc|
            && p[5..5 + |acc|] == acc
            && p[5 + |acc|..] == raw
  {
    var p := Record(head, acc) + raw;
    assert p[1..5] == LeBytes(|acc|, 4);
    PowersOf256();
    LeRoundTrip(|acc|, 4);
  }

  /** What the receiver sees of its buffer: the record, then the raw bytes. */
  lemma HeldSkipped(pd: Pending, raw: seq<byte>)
    requires ValidPending(pd)
    requires pd.Idle? && raw != [] ==> !IsFragment(raw[0]) || IsFirstFragment(raw[0])
    ensures var p := Held(pd) + raw;
            && Skipped(p, true) == |Held(pd)|
            && p[|Held(pd)|..] == raw
  {
    match pd
    case Idle => assert Held(pd) + raw == raw;
    case Partial(head, acc) => RecordSkipped(head, acc, raw);
  }

  lemma FrameWaits(f: Frame, pd: Pending, part: seq<byte>)
    requires ValidPending(pd) && Allowed(f, pd) && part < Encode(f)
    ensures Step(Held(pd) + part, true) == Wait
  {
    if part != [] { assert part[0] == Encode(f)[0] == f.flags; }
    HeldSkipped(pd, part);
    PrefixWaits(f, part);
  }

  lemma EncodeParts(f: Frame, more: seq<byte>)
    requires ValidFrame(f)
    ensures var buf := Encode(f) + more;
            var start := HeaderSize(f);
            && buf[0] == f.flags
            && buf[start..start + |f.payload|] == Masked(f.payload, f.mask)
            && buf[start - |f.mask|..start] == f.mask
            && buf[start + |f.payload|..] == more
            && |Encode(f)| == start + |f.payload|
  {
  }

  lemma ConsumeFrame(f: Frame, record: seq<byte>, more: seq<byte>)
    requires ValidFrame(f)
    requires record == [] || 5 <= |record|
    ensures var p := record + (Encode(f) + more);
            var start := |record| + HeaderSize(f);
            && Masked(p[start..start + |f.payload|], p[start - |f.mask|..start]) == f.payload
            && p[start + |f.payload|..] == more
            && p[|record|] == f.flags
            && FrameFits(p, |record|, Header(HeaderSize(f), |f.mask|, |f.payload|))
  {
    hide Masked, Encode, LengthBytes;
    var buf := Encode(f) + more;
    var p := record + buf;
    var start := HeaderSize(f);
    EncodeParts(f, more);
    MaskedTwice(f.payload, f.mask);
    Behind(record, buf, start, start + |f.payload|);
    Behind(record, buf, start - |f.mask|, start);
    assert p[|record| + start + |f.payload|..] == buf[start + |f.payload|..];
  }

  lemma Behind(a: seq<byte>, b: seq<byte>, from: nat, to: nat)
    requires from <= to <= |b|
    ensures (a + b)[|a| + from..|a| + to] == b[from..to]
  {
  }

  /** The receiver finds the next frame behind whatever record it holds. */
  lemma StepConsumes(f: Frame, pd: Pending, more: seq<byte>)
    requires ValidPending(pd) && Allowed(f, pd)
    ensures var p := Held(pd) + (Encode(f) + more);
            Step(p, true) == Consume(p, |Held(pd)|, Header(HeaderSize(f), |f.mask|, |f.payload|), Reassembles(p, true))
  {
    hide ParseHeader, Encode, LengthBytes, Skipped, Consume, Reassembles, Held, Complete;
    var buf := Encode(f) + more;
    EncodeParts(f, more);
    HeldSkipped(pd, buf);
    HeaderOf(f, more);
    FrameComplete(f, |buf|);
  }

  lemma FrameComplete(f: Frame, available: nat)
    requires ValidFrame(f) && |Encode(f)| <= available
    ensures Complete(Header(HeaderSize(f), |f.mask|, |f.payload|), available)
    ensures HeaderSize(f) + |f.payload| < 0x1_0000_0000_0000_0000
  {
    hide LengthBytes, Masked;
  }

  lemma WholeConsumed(f: Frame, more: seq<byte>)
    requires ValidFrame(f)
    ensures Consume([] + (Encode(f) + more), 0, Header(HeaderSize(f), |f.mask|, |f.payload|), false) ==
            Next(more, [Message(f.flags, f.payload)])
  {
    hide Masked, Encode, HeaderSize, Consume;
    ConsumeFrame(f, [], more);
    ConsumeWhole([] + (Encode(f) + more), 0, Header(HeaderSize(f), |f.mask|, |f.payload|));
  }

  lemma FirstConsumed(f: Frame, more: seq<byte>)
    requires Allowed(f, Idle) && IsFirstFragment(f.flags)
    ensures Consume([] + (Encode(f) + more), 0, Header(HeaderSize(f), |f.mask|, |f.payload|), true) ==
            Next(Record(f.flags - f.flags % 16, Kept(f)) + more, [])
  {
    hide Masked, Encode, Consume, Record, Zeroed;
    if Overwritten(f) > 0 {
      ShortConsumed(f, more);
    } else {
      ConsumeFrame(f, [], more);
      ConsumeFirst([] + (Encode(f) + more), 0, Header(HeaderSize(f), |f.mask|, |f.payload|));
      NothingZeroed(f.payload);
    }
  }

  lemma NothingZeroed(s: seq<byte>)
    ensures Zeroed(s, 0) == s
  {
  }

  lemma ShortConsumed(f: Frame, more: seq<byte>)
    requires Allowed(f, Idle) && IsFirstFragment(f.flags) && Overwritten(f) > 0
    ensures Consume([] + (Encode(f) + more), 0, Header(HeaderSize(f), |f.mask|, |f.payload|), true) ==
            Next(Record(f.flags - f.flags % 16, Kept(f)) + more, [])
  {
    hide Encode, Consume, Record, Zeroed, LengthBytes;
    var p, h, n := [] + (Encode(f) + more), Header(HeaderSize(f), 0, |f.payload|), |f.payload|;
    ConsumeFrame(f, [], more);
    PayloadBehind(f, more);
    ConsumeShort(p, h);
    MovedStable(f.flags - f.flags % 16, f.payload, more, n, Overwritten(f));
    var z := Kept(f);
    assert z[..n] == z && z[n..] == [];
    assert Record(f.flags - f.flags % 16, z) + [] == Record(f.flags - f.flags % 16, z);
  }

  lemma PayloadBehind(f: Frame, more: seq<byte>)
    requires ValidFrame(f) && f.mask == []
    ensures ([] + (Encode(f) + more))[HeaderSize(f)..] == f.payload + more
  {
    hide LengthBytes;
  }

  lemma NextConsumed(f: Frame, head: byte, acc: seq<byte>, more: seq<byte>)
    requires ValidPending(Partial(head, acc)) && Allowed(f, Partial(head, acc))
    ensures Consume(Record(head, acc) + (Encode(f) + more), 5 + |acc|, Header(HeaderSize(f), |f.mask|, |f.payload|), true) ==
            if f.flags < 128 then Next(Record(head, acc + f.payload) + more, []) else Next(more, [Message(f.flags, acc + f.payload)])
  {
    hide Masked, Encode, HeaderSize, Consume, Record, Skipped;
    RecordFront(head, acc);
    ConsumeFrame(f, Record(head, acc), more);
    RecordSkipped(head, acc, Encode(f) + more);
    ConsumeNext(Record(head, acc) + (Encode(f) + more), 5 + |acc|, Header(HeaderSize(f), |f.mask|, |f.payload|));
  }

  lemma RecordFront(head: byte, acc: seq<byte>)
    ensures |Record(head, acc)| == 5 + |acc| && Record(head, acc)[0] == head
  {
  }

  lemma FlagsFirst(f: Frame, more: seq<byte>)
    requires ValidFrame(f)
    ensures var p := [] + (Encode(f) + more); p != [] && p[0] == f.flags
  {
    EncodeParts(f, more);
  }

  lemma FrameArrivesIdle(f: Frame, more: seq<byte>)
    requires Allowed(f, Idle)
    ensures Step(Held(Idle) + (Encode(f) + more), true) == Next(Held(After(f, Idle)) + more, Emitted(f, Idle))
  {
    hide Step, Encode, Record, Consume, HeaderSize;
    StepConsumes(f, Idle, more);
    FlagsFirst(f, more);
    assert [] + more == more;
    if IsFragment(f.flags) { FirstConsumed(f, more); } else { WholeConsumed(f, more); }
  }

  lemma FrameArrivesPartial(f: Frame, head: byte, acc: seq<byte>, more: seq<byte>)
    requires ValidPending(Partial(head, acc)) && Allowed(f, Partial(head, acc))
    ensures var pd := Partial(head, acc);
            Step(Held(pd) + (Encode(f) + more), true) == Next(Held(After(f, pd)) + more, Emitted(f, pd))
  {
    hide Step, Encode, Record, Consume, HeaderSize;
    RecordFront(head, acc);
    StepConsumes(f, Partial(head, acc), more);
    NextConsumed(f, head, acc, more);
    assert [] + more == more;
  }

  lemma FrameArrives(f: Frame, pd: Pending, more: seq<byte>)
    requires ValidPending(pd) && Allowed(f, pd)
    ensures Step(Held(pd) + (Encode(f) + more), true) == Next(Held(After(f, pd)) + more, Emitted(f, pd))
    ensures ValidPending(After(f, pd))
  {
    hide Step, Encode, LengthBytes, Held;
    match pd
    case Idle => FrameArrivesIdle(f, more);
    case Partial(head, acc) => FrameArrivesPartial(f, head, acc, more);
  }

  /** A first fragment that has the bytes the record overwrites is never early. */
  lemma NeverEarly(f: Frame, pd: Pending, more: seq<byte>)
    requires ValidPending(pd) && Allowed(f, pd)
    ensures !Early(Held(pd) + (Encode(f) + more), true)
  {
    hide LengthBytes, Masked;
    EncodeParts(f, more);
  }

  lemma NothingWaits(pd: Pending)
    requires ValidPending(pd)
    ensures Step(Held(pd) + [], true) == Wait
  {
    HeldSkipped(pd, []);
  }

  /** Number of frames of fs that lie wholly within the first n bytes of the wire. */
  function Arrived(fs: seq<Frame>, n: nat): (k: nat)
    requires ValidFrames(fs)
    ensures k <= |fs|
  {
    if fs == [] || n < |Encode(fs[0])| then 0 else 1 + Arrived(fs[1..], n - |Encode(fs[0])|)
  }

  /** The messages a run of frames completes, and what stays open after it. */
  function Messages(fs: seq<Frame>, pd: Pending): seq<Message> {
    if fs == [] then [] else Emitted(fs[0], pd) + Messages(fs[1..], After(fs[0], pd))
  }

  function Final(fs: seq<Frame>, pd: Pending): Pending {
    if fs == [] then pd else Final(fs[1..], After(fs[0], pd))
  }

  /**
   Draining any prefix of a well-formed stream delivers the messages of the frames that
   have arrived, and keeps the open message and the bytes of the frame still arriving.
   */
  lemma {:induction false} DrainPrefix(fs: seq<Frame>, pd: Pending, got: seq<byte>)
    requires InOrder(fs, pd) && ValidPending(pd)
    requires got <= Wire(fs)
    ensures var k := Arrived(fs, |got|);
            && |Wire(fs[..k])| <= |got|
            && Drain(Held(pd) + got, true)
               == Drained(Held(Final(fs[..k], pd)) + got[|Wire(fs[..k])|..], Messages(fs[..k], pd), true, true)
  {
    hide Step, Encode, Held, Emitted, After, Allowed, Drain, Early;
    var k := Arrived(fs, |got|);
    if fs == [] {
      assert fs[..k] == [];
      assert got == [];
      NothingWaits(pd);
      DrainStops(Held(pd) + got, true);
    } else if |got| < |Encode(fs[0])| {
      assert fs[..k] == [];
      assert got < Encode(fs[0]) by {
        assert got == Wire(fs)[..|got|] == Encode(fs[0])[..|got|];
      }
      FrameWaits(fs[0], pd, got);
      DrainStops(Held(pd) + got, true);
    } else {
      var f, n := fs[0], |Encode(fs[0])|;
      var more := got[n..];
      WireSplit(fs, got);
      FrameArrives(f, pd, more);
      NeverEarly(f, pd, more);
      DrainNext(Held(pd) + got, true);
      DrainPrefix(fs[1..], After(f, pd), more);
      var j := Arrived(fs[1..], |more|);
      assert fs[..k][1..] == fs[1..][..j] && fs[..k][0] == f;
      assert Wire(fs[..k]) == Encode(f) + Wire(fs[1..][..j]);
      assert got[|Wire(fs[..k])|..] == more[|Wire(fs[1..][..j])|..];
    }
  }

  /** A prefix of the wire that holds the first frame. */
  lemma WireSplit(fs: seq<Frame>, got: seq<byte>)
    requires ValidFrames(fs) && fs != [] && got <= Wire(fs) && |Encode(fs[0])| <= |got|
    ensures var n := |Encode(fs[0])|; got == Encode(fs[0]) + got[n..] && got[n..] <= Wire(fs[1..])
  {
    hide Encode;
    var n := |Encode(fs[0])|;
    assert got[..n] == Wire(fs)[..n] == Encode(fs[0]);
    assert got[n..] == Wire(fs)[..|got|][n..] == Wire(fs)[n..][..|got| - n];
    assert Wire(fs)[n..] == Wire(fs[1..]);
  }

  // ----- the sender's view

  /** A message as its sender cuts it: one frame, or a first fragment and continuations. */
  datatype Sent = Whole(frame: Frame) | Split(first: Frame, rest: seq<Frame>)

  function Frames(s: Sent): seq<Frame> {
    match s
    case Whole(f) => [f]
    case Split(first, rest) => [first] + rest
  }

  function Payloads(fs: seq<Frame>): seq<byte> {
    if fs == [] then [] else fs[0].payload + Payloads(fs[1..])
  }

  predicate Continuations(fs: seq<Frame>) {
    && fs != []
    && forall i :: 0 <= i < |fs| ==> ValidFrame(fs[i]) && fs[i].flags % 16 == 0 && (fs[i].flags >= 128 <==> i == |fs| - 1)
  }

  predicate ValidSent(s: Sent) {
    match s
    case Whole(f) => ValidFrame(f) && !IsFragment(f.flags)
    case Split(first, rest) =>
      && ValidFrame(first) && IsFirstFragment(first.flags) && Overwritten(first) <= |first.payload|
      && Continuations(rest)
      && |first.payload| + |Payloads(rest)| < 0x1_0000_0000
  }

  /** What the peer's handler sees of it. */
  function Seen(s: Sent): Message
    requires ValidSent(s)
  {
    match s
    case Whole(f) => Message(f.flags, f.payload)
    case Split(first, rest) => Message(rest[|rest| - 1].flags, Kept(first) + Payloads(rest))
  }

  /** What it should see. */
  function Meant(s: Sent): Message
    requires ValidSent(s)
  {
    match s
    case Whole(f) => Message(f.flags, f.payload)
    case Split(first, rest) => Message(rest[|rest| - 1].flags, first.payload + Payloads(rest))
  }

  /** The bytes that the record overwrites, if any, are zero. */
  predicate Intact(s: Sent)
    requires ValidSent(s)
  {
    s.Split? ==> forall i :: 0 <= i < Overwritten(s.first) ==> s.first.payload[i] == 0
  }

  function AllFrames(ss: seq<Sent>): seq<Frame> {
    if ss == [] then [] else Frames(ss[0]) + AllFrames(ss[1..])
  }

  function AllSeen(ss: seq<Sent>): seq<Message>
    requires forall i :: 0 <= i < |ss| ==> ValidSent(ss[i])
  {
    seq(|ss|, i requires 0 <= i < |ss| => Seen(ss[i]))
  }

  function AllMeant(ss: seq<Sent>): seq<Message>
    requires forall i :: 0 <= i < |ss| ==> ValidSent(ss[i])
  {
    seq(|ss|, i requires 0 <= i < |ss| => Meant(ss[i]))
  }

  lemma {:induction false} ContinuationsComplete(fs: seq<Frame>, more: seq<Frame>, pd: Pending)
    requires Continuations(fs) && InOrder(more, Idle)
    requires pd.Partial? && |pd.acc| + |Payloads(fs)| < 0x1_0000_0000
    ensures InOrder(fs + more, pd)
    ensures Messages(fs + more, pd) == [Message(fs[|fs| - 1].flags, pd.acc + Payloads(fs))] + Messages(more, Idle)
    ensures Final(fs + more, pd) == Final(more, Idle)
    decreases |fs|
  {
    hide Encode, LengthBytes;
    var f := fs[0];
    assert (fs + more)[0] == f && (fs + more)[1..] == fs[1..] + more;
    if |fs| == 1 {
      assert fs[1..] + more == more;
      assert Payloads(fs) == f.payload + Payloads(fs[1..]) == f.payload;
    } else {
      ContinuationsComplete(fs[1..], more, After(f, pd));
      assert pd.acc + f.payload + Payloads(fs[1..]) == pd.acc + Payloads(fs);
    }
  }

  lemma SentCompletes(s: Sent, more: seq<Frame>)
    requires ValidSent(s) && InOrder(more, Idle)
    ensures InOrder(Frames(s) + more, Idle)
    ensures Messages(Frames(s) + more, Idle) == [Seen(s)] + Messages(more, Idle)
    ensures Final(Frames(s) + more, Idle) == Final(more, Idle)
  {
    hide LengthBytes, Encode;
    match s
    case Whole(f) =>
      assert ([f] + more)[1..] == more;
    case Split(first, rest) =>
      ContinuationsComplete(rest, more, After(first, Idle));
      var fs := Frames(s) + more;
      assert fs[0] == first && fs[1..] == rest + more;
  }

  lemma {:induction false} SentInOrder(ss: seq<Sent>)
    requires forall i :: 0 <= i < |ss| ==> ValidSent(ss[i])
    ensures InOrder(AllFrames(ss), Idle)
    ensures Messages(AllFrames(ss), Idle) == AllSeen(ss)
    ensures Final(AllFrames(ss), Idle) == Idle
  {
    hide InOrder, Messages, Final, Frames, Seen, ValidSent;
    if ss == [] {
      NoFrames();
    } else {
      SentInOrder(ss[1..]);
      SentCompletes(ss[0], AllFrames(ss[1..]));
      assert AllSeen(ss) == [Seen(ss[0])] + AllSeen(ss[1..]);
    }
  }

  lemma NoFrames()
    ensures InOrder([], Idle) && Messages([], Idle) == [] && Final([], Idle) == Idle
  {
  }

  lemma {:induction false} WellFormedRunDefined(fs: seq<Frame>, events: seq<seq<byte>>)
    requires InOrder(fs, Idle)
    requires Flatten(events) <= Wire(fs)
    ensures Run(events, true).defined && Run(events, true).steady
  {
    hide Drain, Flatten, Wire, InOrder, Arrived, Final, Messages;
    if events != [] {
      var n := |events| - 1;
      assert events == events[..n] + [events[n]];
      FlattenSnoc(events[..n], events[n]);
      WellFormedRunDefined(fs, events[..n]);
      ArrivalIndependent(events[..n], true);
      DrainAppend(Flatten(events[..n]), events[n], true);
      DrainPrefix(fs, Idle, Flatten(events));
      assert Held(Idle) + Flatten(events) == Flatten(events);
    }
  }

  /**
   For every list of messages, however each is fragmented and masked, and every way the
   bytes are cut into receive events, the handler sees exactly those messages, in order,
   less what the record overwrites, and the buffer ends empty.
   */
  lemma MessagesDelivered(ss: seq<Sent>, events: seq<seq<byte>>)
    requires forall i :: 0 <= i < |ss| ==> ValidSent(ss[i])
    requires ValidFrames(AllFrames(ss)) && Flatten(events) == Wire(AllFrames(ss))
    ensures Run(events, true) == Drained([], AllSeen(ss), true, true)
  {
    hide Step, Encode, Allowed, After, Emitted;
    var fs := AllFrames(ss);
    SentInOrder(ss);
    WellFormedRunDefined(fs, events);
    ArrivalIndependent(events, true);
    DrainPrefix(fs, Idle, Wire(fs));
    assert Held(Idle) + Wire(fs) == Wire(fs);
    AllArrived(fs);
    assert fs[..|fs|] == fs;
  }

  lemma {:induction false} ZerosAre(k: nat, i: nat)
    requires i < k
    ensures Zeros(k)[i] == 0
  {
    if i > 0 { ZerosAre(k - 1, i - 1); }
  }

  lemma ZeroedAt(s: seq<byte>, k: nat)
    requires k <= |s|
    ensures Zeroed(s, k) == s <==> forall i :: 0 <= i < k ==> s[i] == 0
  {
    hide Zeros;
    var z := Zeroed(s, k);
    assert z == Zeros(k) + s[k..];
    forall i | 0 <= i < k ensures z[i] == 0 {
      ZerosAre(k, i);
    }
    if forall i :: 0 <= i < k ==> s[i] == 0 {
      assert forall i :: 0 <= i < |s| ==> z[i] == s[i];
    } else {
      var i :| 0 <= i < k && s[i] != 0;
      assert z[i] != s[i];
    }
  }

  lemma IntactSeen(s: Sent)
    requires ValidSent(s)
    ensures Seen(s) == Meant(s) <==> Intact(s)
  {
    hide Zeroed, Payloads;
    if s.Split? {
      ZeroedAt(s.first.payload, Overwritten(s.first));
      var a, b, c := Kept(s.first), s.first.payload, Payloads(s.rest);
      assert (a + c)[..|a|] == a && (b + c)[..|b|] == b;
    }
  }

  /** Every message comes as it was sent if and only if the bytes overwritten in each first fragment are zero. */
  lemma DeliveredAsSent(ss: seq<Sent>, events: seq<seq<byte>>)
    requires forall i :: 0 <= i < |ss| ==> ValidSent(ss[i])
    requires ValidFrames(AllFrames(ss)) && Flatten(events) == Wire(AllFrames(ss))
    ensures Run(events, true).delivered == AllMeant(ss) <==> forall i :: 0 <= i < |ss| ==> Intact(ss[i])
  {
    hide Run, Flatten, Wire, AllFrames, Seen, Meant, Intact, ValidSent;
    MessagesDelivered(ss, events);
    forall i | 0 <= i < |ss| ensures AllSeen(ss)[i] == AllMeant(ss)[i] <==> Intact(ss[i]) {
      IntactSeen(ss[i]);
    }
    assert AllSeen(ss) == AllMeant(ss) <==> forall i :: 0 <= i < |ss| ==> AllSeen(ss)[i] == AllMeant(ss)[i];
  }

  lemma {:induction false} AllArrived(fs: seq<Frame>)
    requires ValidFrames(fs)
    ensures Arrived(fs, |Wire(fs)|) == |fs|
  {
    if fs != [] {
      AllArrived(fs[1..]);
    }
  }
}
