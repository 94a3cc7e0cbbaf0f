/**
 The WebSocket receiver and sender working in place on mongoose's buffers, proved against
 the functions of module WebSocket.
 */
module WebSocketConnection {
  import opened Bytes
  import opened Mbufs
  import opened WebSocket

  /** Masks or unmasks the bytes [start, start + n) in place with the given key. */
  method ApplyMask(m: Mbuf, start: nat, n: nat, key: seq<byte>)
    requires start + n <= |m.data| && |key| == 4
    modifies m
    ensures m.data == old(m.data)[..start] + Masked(old(m.data)[start..start + n], key) + old(m.data)[start + n..]
  {
    hide Xor;
    ghost var d := m.data;
    ghost var want := Masked(d[start..start + n], key);
    for i := 0 to n
      invariant |m.data| == |d|
      invariant forall k :: start <= k < start + i ==> m.data[k] == want[k - start]
      invariant forall k :: 0 <= k < start || start + i <= k < |d| ==> m.data[k] == d[k]
    {
      m.data := m.data[start + i := Xor(m.data[start + i], key[i % 4])];
      assert want[i] == Xor(d[start + i], key[i % 4]);
    }
    assert m.data == d[..start] + want + d[start + n..];
  }

  class Connection {
    const recv: Mbuf
    const send: Mbuf
    const defrag: bool
    var delivered: seq<Message>

    constructor (recv: Mbuf, send: Mbuf, defrag: bool)
      ensures this.recv == recv && this.send == send && this.defrag == defrag && delivered == []
    {
      this.recv := recv;
      this.send := send;
      this.defrag := defrag;
      delivered := [];
    }

    /** Moves a frame's unmasked payload up to the reassembly record at the front of the buffer. */
    method Reassemble(skip: nat, start: nat, n: nat, first: bool)
      requires 5 <= start && skip <= start && start + n <= |recv.data|
      requires first ==> n < 0x1_0000_0000
      requires !first ==> 5 <= skip && skip - 5 + n < 0x1_0000_0000 && LeValue(recv.data[1..5]) == skip - 5
      modifies recv
      ensures var p := old(recv.data);
              recv.data == Record(if first then p[0] - p[0] % 16 else p[0],
                                  (if first then [] else p[5..skip]) + p[start..start + n]) + p[start + n..]
    {
      hide LeValue, LeBytes, Record;
      ghost var p := recv.data;
      var base := skip;
      if first {
        StartRecord();
        base := 5;
      }
      ghost var q := recv.data;
      SameTail(p, q, start, n);
      ghost var acc := q[5..base];
      var size := (LeValue(recv.data[1..5]) + n) % 0x1_0000_0000;
      recv.CloseGap(base, start);
      Regrown(q, base, start, recv.data, LeBytes(size, 4));
      recv.Overwrite(1, LeBytes(size, 4));
      Grown(q[0], acc, p[start..start + n], p[start + n..], size);
    }

    /** The head of a record without payload is written over the front of the buffer. */
    method StartRecord()
      requires 5 <= |recv.data|
      modifies recv
      ensures var p := old(recv.data);
              recv.data == [p[0] - p[0] % 16] + LeBytes(0, 4) + p[5..] && LeValue(recv.data[1..5]) == 0
    {
      hide LeValue, LeBytes;
      ghost var p := recv.data;
      recv.Overwrite(0, [recv.data[0] - recv.data[0] % 16]);
      assert recv.data == [p[0] - p[0] % 16] + p[1..];
      recv.Overwrite(1, LeBytes(0, 4));
      assert recv.data == [p[0] - p[0] % 16] + LeBytes(0, 4) + p[5..];
      PowersOf256();
      LeRoundTrip(0, 4);
      assert recv.data[1..5] == LeBytes(0, 4);
    }

    /**
     A first fragment whose header has fewer than the five bytes of a record: the size field
     is written over what follows the header, and all of that moves up behind it.
     */
    method ReassembleShort(start: nat, n: nat)
      requires 2 <= start < 5 && start + n <= |recv.data| && n < 0x1_0000_0000
      modifies recv
      ensures var p := old(recv.data); recv.data == Moved(p[0] - p[0] % 16, p[start..], n, 5 - start)
    {
      hide LeBytes, Zeroed, Zeros, Moved;
      ghost var p := recv.data;
      ClearFront();
      SizeField(p, recv.data, start);
      ghost var q, z := recv.data, Zeroed(p[start..], 5 - start);
      recv.OpenGap(start, Zeros(5 - start));
      ShortRecord(q, z, start, n, recv.data, LeBytes(n, 4));
      recv.Overwrite(1, LeBytes(n, 4));
      MovedIs(p[0] - p[0] % 16, p[start..], n, 5 - start);
    }

    /** The operation is taken out of the first byte, and up to four bytes after it are cleared. */
    method ClearFront()
      requires 2 <= |recv.data|
      modifies recv
      ensures var p := old(recv.data); var z := if |p| < 5 then |p| else 5;
              recv.data == [p[0] - p[0] % 16] + Zeros(z - 1) + p[z..]
    {
      hide Zeros;
      ghost var p := recv.data;
      recv.Overwrite(0, [recv.data[0] - recv.data[0] % 16]);
      assert recv.data == [p[0] - p[0] % 16] + p[1..];
      var z := if |recv.data| < 5 then |recv.data| else 5;
      recv.Overwrite(1, Zeros(z - 1));
    }

    /** Delivers the payload of the record at the front of the buffer and removes the record. */
    method DeliverRecord(flags: byte, ghost head: byte, ghost acc: seq<byte>, ghost tail: seq<byte>)
      requires recv.data == Record(head, acc) + tail && |acc| < 0x1_0000_0000
      modifies this`delivered, recv
      ensures recv.data == tail && delivered == old(delivered) + [Message(flags, acc)]
    {
      hide LeValue, LeBytes;
      assert recv.data[1..5] == LeBytes(|acc|, 4);
      PowersOf256();
      LeRoundTrip(|acc|, 4);
      var size := LeValue(recv.data[1..5]);
      assert recv.data[5..5 + size] == acc;
      delivered := delivered + [Message(flags, recv.data[5..5 + size])];
      recv.Remove(5 + size);
    }

    /** Removes the mask, if any, from the n payload bytes at `start`. */
    method UnmaskPayload(start: nat, n: nat, maskSize: nat)
      requires maskSize <= start && start + n <= |recv.data| && (maskSize == 0 || maskSize == 4)
      modifies recv
      ensures var p := old(recv.data);
              && |recv.data| == |p|
              && recv.data[..start] == p[..start]
              && recv.data[start..start + n] == Masked(p[start..start + n], p[start - maskSize..start])
              && recv.data[start + n..] == p[start + n..]
    {
      if maskSize > 0 {
        hide Masked;
        ApplyMask(recv, start, n, recv.data[start - maskSize..start]);
      }
    }

    /** Consumes the complete frame that starts skip bytes into the buffer. */
    method ConsumeFrame(skip: nat, h: Header, reass: bool)
      requires FrameFits(recv.data, skip, h) && !Consume(recv.data, skip, h, reass).Undefined?
      requires skip > 0 ==> LeValue(recv.data[1..5]) == skip - 5
      modifies this`delivered, recv
      ensures var r := Consume(old(recv.data), skip, h, reass);
              recv.data == r.rest && delivered == old(delivered) + r.delivered
    {
      hide Masked, LeValue, Record, Moved, Consume, IsFirstFragment;
      ghost var p := recv.data;
      var start := skip + h.size;
      var flags := recv.data[skip];
      UnmaskPayload(start, h.dataSize, h.maskSize);
      if !reass {
        ConsumeWhole(p, skip, h);
        delivered := delivered + [Message(flags, recv.data[start..start + h.dataSize])];
        recv.Remove(start + h.dataSize);
      } else {
        WhenDefined(p, skip, h, reass);
        if !IsFirstFragment(flags) { ConsumeNext(p, skip, h); } else if start < 5 { ConsumeShort(p, h); } else { ConsumeFirst(p, skip, h); }
        SameFrame(p, recv.data, start, skip, h);
        ConsumeFragment(skip, start, h.dataSize, flags);
      }
    }

    /** An unmasked fragment goes to the record; the last one delivers it. */
    method ConsumeFragment(skip: nat, start: nat, n: nat, flags: byte)
      requires (skip == 0 || 5 <= skip) && skip + 2 <= start && start + n <= |recv.data|
      requires if IsFirstFragment(flags) then n < 0x1_0000_0000 else 5 <= skip && skip - 5 + n < 0x1_0000_0000
      requires skip > 0 ==> LeValue(recv.data[1..5]) == skip - 5
      modifies this`delivered, recv
      ensures var q := old(recv.data);
              var data, tail := q[start..start + n], q[start + n..];
              if IsFirstFragment(flags) then
                && delivered == old(delivered)
                && recv.data == if start < 5 then Moved(q[0] - q[0] % 16, q[start..], n, 5 - start) else Record(q[0] - q[0] % 16, data) + tail
              else if flags < 128 then delivered == old(delivered) && recv.data == Record(q[0], q[5..skip] + data) + tail
              else recv.data == tail && delivered == old(delivered) + [Message(flags, q[5..skip] + data)]
    {
      hide LeValue, Record, Moved;
      ghost var q := recv.data;
      ghost var data, tail := q[start..start + n], q[start + n..];
      if start < 5 {
        ReassembleShort(start, n);
      } else {
        assert [] + data == data;
        Reassemble(skip, start, n, IsFirstFragment(flags));
        if flags >= 128 {
          DeliverRecord(flags, q[0], q[5..skip] + data, tail);
        }
      }
    }

    /** One call of the delivery routine: consumes at most one frame. */
    method DeliverData() returns (ok: bool)
      requires !Step(recv.data, defrag).Undefined?
      modifies this`delivered, recv
      ensures match Step(old(recv.data), defrag)
              case Wait => !ok && recv.data == old(recv.data) && delivered == old(delivered)
              case Next(rest, ms) => ok && recv.data == rest && delivered == old(delivered) + ms
              case Undefined => true
    {
      hide ParseHeader, LeValue, Consume;
      var reass := defrag && |recv.data| > 0 && IsFragment(recv.data[0]);
      var skip := 0;
      if reass && !IsFirstFragment(recv.data[0]) && |recv.data| >= 5 && |recv.data| >= 5 + LeValue(recv.data[1..5]) {
        skip := 5 + LeValue(recv.data[1..5]);
      }
      var h := ParseHeader(recv.data[skip..]);
      ok := Complete(h, |recv.data| - skip);
      if ok {
        ConsumeFrame(skip, h, reass);
      }
    }

    /** A receive event: the new bytes are appended, then frames are delivered until none is complete. */
    method OnReceive(bytes: seq<byte>)
      requires Drain(recv.data + bytes, defrag).defined
      modifies this`delivered, recv
      ensures var d := Drain(old(recv.data) + bytes, defrag);
              recv.data == d.rest && delivered == old(delivered) + d.delivered
    {
      hide Step, Unparsed;
      var _ := recv.Append(bytes, true);
      ghost var all := Drain(recv.data, defrag);
      ghost var before := delivered;
      var ok := true;
      while ok
        invariant Drain(recv.data, defrag).defined
        invariant Drain(recv.data, defrag).rest == all.rest
        invariant delivered + Drain(recv.data, defrag).delivered == before + all.delivered
        invariant !ok ==> Step(recv.data, defrag).Wait?
        decreases Unparsed(recv.data, defrag), ok
      {
        StepProgress(recv.data, defrag);
        ok := DeliverData();
      }
    }

    /**
     Sends one frame: a header with the shortest length form below 65535, the masking key
     when this end is a client, and the payload, which is masked in place in the send buffer.
     */
    method SendFrame(op: nat, data: seq<byte>, client: bool, key: seq<byte>)
      requires |data| < 0x8000_0000_0000_0000 && |key| == 4
      modifies send
      ensures ValidFrame(SentFrame(op, data, client, key))
      ensures send.data == old(send.data) + Encode(SentFrame(op, data, client, key))
    {
      hide Masked, LengthBytes;
      ghost var before := send.data;
      var header := SendHeader(op, |data|, client, SentFrame(op, data, client, key));
      var _ := send.Append(header, true);
      if client {
        var _ := send.Append(key, true);
        var pos := |send.data|;
        var _ := send.Append(data, true);
        Appended(before + header + key, data);
        ApplyMask(send, pos, |send.data| - pos, key);
        Joined(before, header, key, Masked(data, key));
      } else {
        var _ := send.Append(data, true);
        NoMask(data);
        Joined(before, header, [], data);
      }
    }
  }

  lemma Appended(a: seq<byte>, b: seq<byte>)
    ensures (a + b)[..|a|] == a && (a + b)[|a|..|a + b|] == b && (a + b)[|a + b|..] == []
  {
  }

  lemma Joined(a: seq<byte>, b: seq<byte>, c: seq<byte>, d: seq<byte>)
    ensures a + b + c + d == a + (b + c + d) && a + b + c + d + [] == a + b + c + d
    ensures c == [] ==> a + b + d == a + (b + c + d)
  {
  }

  method SendHeader(op: nat, len: nat, client: bool, ghost f: Frame) returns (header: seq<byte>)
    requires len < 0x8000_0000_0000_0000
    requires f == SentFrame(op, f.payload, client, f.mask) && len == |f.payload| && (client ==> |f.mask| == 4)
    ensures ValidFrame(f) && header == LengthBytes(f)
  {
    header := [(if op / 0x100 % 2 == 1 then 0 else 128) + op % 16];
    if len < 126 {
      header := header + [len];
    } else if len < 65535 {
      header := header + [126] + BeBytes(len, 2);
    } else {
      header := header + [127] + BeBytes(len / 0x1_0000_0000, 4) + BeBytes(len % 0x1_0000_0000, 4);
    }
    if client {
      header := header[1 := header[1] + 128];
    }
  }

  /** The frame that sending `data` with operation `op` puts on the wire; bit 8 of op is the do-not-finish flag. */
  function SentFrame(op: nat, data: seq<byte>, client: bool, key: seq<byte>): Frame {
    Frame((if op / 0x100 % 2 == 1 then 0 else 128) + op % 16,
          if |data| < 126 then Short else if |data| < 65535 then Medium else Long,
          if client then key else [], data)
  }

  lemma NoMask(data: seq<byte>)
    ensures Masked(data, []) == data
  {
  }

  /** The record in front of a frame is not touched by unmasking. */
  lemma SameFront(p: seq<byte>, q: seq<byte>, start: nat, skip: nat)
    requires start <= |p| == |q| && q[..start] == p[..start] && skip <= start && 5 <= start
    ensures q[0] == p[0] && q[1..5] == p[1..5] && (5 <= skip ==> q[5..skip] == p[5..skip])
  {
    assert q[0] == q[..start][0];
    SameSlice(p, q, start, 1, 5);
    if 5 <= skip { SameSlice(p, q, start, 5, skip); }
  }

  lemma SameSlice(p: seq<byte>, q: seq<byte>, n: nat, from: nat, to: nat)
    requires from <= to <= n <= |p| == |q| && q[..n] == p[..n]
    ensures q[from..to] == p[from..to]
  {
    assert q[from..to] == q[..n][from..to];
    assert p[from..to] == p[..n][from..to];
  }

  /** The size goes between the head and the bytes that moved up. */
  lemma ShortRecord(q: seq<byte>, z: seq<byte>, start: nat, n: nat, r: seq<byte>, size: seq<byte>)
    requires 2 <= start < 5 && start <= |q| && q[start..] == z && n <= |z| && |size| == 4
    requires r == q[..start] + Zeros(5 - start) + q[start..]
    ensures 5 <= |r| && r[..1] + size + r[5..] == [q[0]] + size + (z[..n] + z[n..])
  {
    hide Zeros;
    assert r[..1] == [q[0]];
    assert r[5..] == z;
    assert z[..n] + z[n..] == z;
  }

  /** What unmasking leaves alone: the record, and all of a frame with a short header. */
  lemma SameFrame(p: seq<byte>, q: seq<byte>, start: nat, skip: nat, h: Header)
    requires FrameFits(p, skip, h) && start == skip + h.size && |p| == |q| && q[..start] == p[..start]
    requires q[start..start + h.dataSize] == Masked(p[start..start + h.dataSize], p[start - h.maskSize..start])
    requires q[start + h.dataSize..] == p[start + h.dataSize..]
    ensures q[0] == p[0] && (5 <= skip ==> q[1..5] == p[1..5] && q[5..skip] == p[5..skip])
    ensures start < 5 ==> q == p
  {
    hide Masked;
    if start < 5 {
      assert p[start..start] == [];
      Unmasked(p, q, start, h.dataSize);
    } else {
      SameFront(p, q, start, skip);
    }
  }

  /** A frame with a short header has no mask. */
  lemma Unmasked(p: seq<byte>, q: seq<byte>, start: nat, n: nat)
    requires start + n <= |p| == |q| && q[..start] == p[..start] && 0 < start
    requires q[start..start + n] == Masked(p[start..start + n], []) && q[start + n..] == p[start + n..]
    ensures q == p
  {
    NoMask(p[start..start + n]);
    assert p == p[..start] + p[start..start + n] + p[start + n..];
    assert q == q[..start] + q[start..start + n] + q[start + n..];
  }

  /** Zeros from the size field on, as far as the buffer goes. */
  lemma MovedIs(head: byte, s: seq<byte>, n: nat, k: nat)
    requires n <= |s|
    ensures var z := Zeroed(s, k); Moved(head, s, n, k) == [head] + LeBytes(n, 4) + (z[..n] + z[n..])
  {
    hide LeBytes, Zeroed;
    var z := Zeroed(s, k);
    assert Record(head, z[..n]) + z[n..] == [head] + LeBytes(n, 4) + (z[..n] + z[n..]);
  }

  lemma SizeField(p: seq<byte>, q: seq<byte>, start: nat)
    requires 2 <= start < 5 && start <= |p| == |q|
    requires var z := if |p| < 5 then |p| else 5;
             q == [p[0] - p[0] % 16] + Zeros(z - 1) + p[z..]
    ensures q[start..] == Zeroed(p[start..], 5 - start) && q[0] == p[0] - p[0] % 16
  {
    hide Zeros;
    var z := if |p| < 5 then |p| else 5;
    ZerosFrom(z - 1, start - 1);
    assert q[start..] == Zeros(z - 1)[start - 1..] + p[z..];
    assert p[start..][z - start..] == p[z..];
  }

  lemma SameTail(p: seq<byte>, q: seq<byte>, start: nat, n: nat)
    requires 5 <= start && start + n <= |p| == |q| && q[5..] == p[5..]
    ensures q[start..] == p[start..start + n] + p[start + n..]
  {
    assert q[start..] == q[5..][start - 5..] && p[start..] == p[5..][start - 5..];
    assert p[start..] == p[start..start + n] + p[start + n..];
  }

  lemma Grown(head: byte, acc: seq<byte>, data: seq<byte>, tail: seq<byte>, size: nat)
    requires size == |acc| + |data|
    ensures Record(head, acc + data) + tail == [head] + LeBytes(size, 4) + (acc + (data + tail))
  {
    hide LeBytes;
  }

  /** The buffer with its gap closed and the size field replaced. */
  lemma Regrown(q: seq<byte>, base: nat, start: nat, r: seq<byte>, size: seq<byte>)
    requires 5 <= base <= start <= |q| && r == q[..base] + q[start..] && |size| == 4
    ensures 5 <= |r| && r[..1] + size + r[5..] == [q[0]] + size + (q[5..base] + q[start..])
  {
    assert r[..1] == [q[0]];
    assert r[5..] == q[5..base] + q[start..];
  }
}
