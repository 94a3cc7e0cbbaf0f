/**
 HTTP chunked transfer coding (section 4.1 of RFC 7230) as mongoose decodes it: complete
 chunks are collapsed to the front of the receive buffer, whatever arrives when.
 */
module Chunked {
  import opened Bytes

  const TWO_64 := 0x1_0000_0000_0000_0000
  const CR: byte := 13
  const LF: byte := 10

  // ----- one chunk

  predicate IsHex(b: byte) {
    48 <= b <= 57 || 65 <= b <= 70 || 97 <= b <= 102
  }

  function HexValue(b: byte): (n: nat)
    requires IsHex(b)
    ensures n < 16
  {
    if b <= 57 then b - 48 else if b <= 70 then b - 65 + 10 else b - 97 + 10
  }

  datatype Scanned = Scanned(n: nat, rest: seq<byte>)

  function Accumulate(n: nat, b: byte): nat
    requires IsHex(b)
  {
    (n * 16 + HexValue(b)) % TWO_64
  }

  /** Hexadecimal digits, accumulated in a 64-bit word. */
  function Scan(s: seq<byte>, n: nat): (r: Scanned)
    ensures |r.rest| <= |s| && r.rest == s[|s| - |r.rest|..]
  {
    if s != [] && IsHex(s[0]) then Scan(s[1..], Accumulate(n, s[0])) else Scanned(n, s)
  }

  predicate StartsLine(s: seq<byte>) {
    |s| >= 2 && s[0] == CR && s[1] == LF
  }

  datatype Parsed =
    | Chunk(data: seq<byte>, rest: seq<byte>)
    | Incomplete
    | Overflow

  /** A chunk from the end of its size line on; Overflow when adding its size n to the offset wraps round. */
  function AfterSize(n: nat, offset: nat, s: seq<byte>): (r: Parsed)
    ensures r.Chunk? ==> |r.data| + |r.rest| + 4 <= |s| && r.rest == s[|s| - |r.rest|..]
  {
    if !StartsLine(s) then Incomplete
    else if offset + n + 4 >= TWO_64 then Overflow
    else
      var u := s[2..];
      if |u| < n || !StartsLine(u[n..]) then Incomplete else Chunk(u[..n], u[n + 2..])
  }

  /** The chunk s starts with. */
  function Parse(s: seq<byte>): (r: Parsed)
    ensures r.Chunk? ==> |r.data| + |r.rest| + 5 <= |s| && r.rest == s[|s| - |r.rest|..]
  {
    var t := Scan(s, 0);
    if |t.rest| == |s| then Incomplete else AfterSize(t.n, |s| - |t.rest|, t.rest)
  }

  // ----- all complete chunks

  datatype Drained =
    | Drained(data: seq<byte>, rest: seq<byte>, ended: bool)
    | Wrapped

  function Before(data: seq<byte>, d: Drained): Drained {
    match d
    case Drained(more, rest, ended) => Drained(data + more, rest, ended)
    case Wrapped => Wrapped
  }

  /** Decoded data of the complete chunks, up to the zero chunk, and the bytes behind them. */
  function Drain(s: seq<byte>): (d: Drained)
    ensures d.Drained? ==> |d.data| + |d.rest| <= |s|
    decreases |s|
  {
    match Parse(s)
    case Incomplete => Drained([], s, false)
    case Overflow => Wrapped
    case Chunk(data, rest) => if data == [] then Drained([], rest, true) else Before(data, Drain(rest))
  }

  lemma BeforeTwice(a: seq<byte>, b: seq<byte>, d: Drained)
    ensures Before(a, Before(b, d)) == Before(a + b, d)
  {
    if d.Drained? { assert a + (b + d.data) == (a + b) + d.data; }
  }

  lemma BeforeNothing(d: Drained)
    ensures Before([], d) == d
  {
    if d.Drained? { assert [] + d.data == d.data; }
  }

  // ----- more bytes do not change what was decoded

  lemma {:induction false} ScanAppend(s: seq<byte>, t: seq<byte>, n: nat)
    requires Scan(s, n).rest != []
    ensures Scan(s + t, n) == Scanned(Scan(s, n).n, Scan(s, n).rest + t)
  {
    hide Accumulate;
    if s != [] && IsHex(s[0]) {
      assert (s + t)[1..] == s[1..] + t;
      ScanAppend(s[1..], t, Accumulate(n, s[0]));
    }
  }

  lemma AfterSizeAppend(n: nat, offset: nat, s: seq<byte>, t: seq<byte>)
    ensures var p := AfterSize(n, offset, s);
            && (p.Chunk? ==> AfterSize(n, offset, s + t) == Chunk(p.data, p.rest + t))
            && (p.Overflow? ==> AfterSize(n, offset, s + t).Overflow?)
  {
    if StartsLine(s) {
      assert (s + t)[2..] == s[2..] + t;
      if n <= |s[2..]| && StartsLine(s[2..][n..]) { TailAppend(s[2..], t, n); }
    }
  }

  lemma ParseAppend(s: seq<byte>, t: seq<byte>)
    ensures Parse(s).Chunk? ==> Parse(s + t) == Chunk(Parse(s).data, Parse(s).rest + t)
    ensures Parse(s).Overflow? ==> Parse(s + t).Overflow?
  {
    hide Scan, AfterSize;
    var p := Scan(s, 0);
    if p.rest != [] {
      ScanAppend(s, t, 0);
      AfterSizeAppend(p.n, |s| - |p.rest|, p.rest, t);
    } else {
      NoLine(p.n, |s|);
    }
  }

  lemma NoLine(n: nat, offset: nat)
    ensures AfterSize(n, offset, []).Incomplete?
  {
  }

  lemma TailAppend(u: seq<byte>, t: seq<byte>, n: nat)
    requires n <= |u| && StartsLine(u[n..])
    ensures (u + t)[..n] == u[..n] && StartsLine((u + t)[n..]) && (u + t)[n + 2..] == u[n + 2..] + t
  {
    assert (u + t)[n..] == u[n..] + t;
  }

  /** Draining what has arrived and then the rest with more bytes is draining everything at once. */
  lemma {:induction false} DrainAppend(s: seq<byte>, t: seq<byte>)
    ensures var d := Drain(s);
            if d.Wrapped? then Drain(s + t).Wrapped?
            else if d.ended then Drain(s + t) == Drained(d.data, d.rest + t, true)
            else Drain(s + t) == Before(d.data, Drain(d.rest + t))
    decreases |s|
  {
    hide Parse;
    ParseAppend(s, t);
    var p := Parse(s);
    if p.Chunk? && p.data != [] {
      DrainAppend(p.rest, t);
      var d := Drain(p.rest);
      if d.Drained? && !d.ended { BeforeTwice(p.data, d.data, Drain(d.rest + t)); }
    } else if p.Incomplete? {
      BeforeNothing(Drain(s + t));
    }
  }

  // ----- receive events

  /** Bytes that arrive, and whether the handler asks for the data to be deleted if it is called. */
  datatype Events = NoEvents | Event(piece: seq<byte>, delete: bool, rest: Events)

  function Arrived(es: Events): seq<byte> {
    if es.NoEvents? then [] else es.piece + Arrived(es.rest)
  }

  /** Decoded body kept in the buffer, raw bytes behind it, and everything deleted before. */
  datatype State = State(body: seq<byte>, raw: seq<byte>, deleted: seq<byte>, ended: bool)
                 | Undefined

  /** One call after more bytes have arrived; the handler is called when some chunk was complete. */
  function Handle(st: State, delete: bool): State
    requires st.State?
  {
    match Drain(st.raw)
    case Wrapped => Undefined
    case Drained(data, rest, ended) =>
      if rest == st.raw then st.(ended := ended)
      else if delete then State([], rest, st.deleted + (st.body + data), ended)
      else State(st.body + data, rest, st.deleted, ended)
  }

  /** A run stops at the zero chunk; what arrives later stays behind it. */
  function Run(st: State, es: Events): State
    decreases es
  {
    if es.NoEvents? || st.Undefined? then st
    else if st.ended then Run(st.(raw := st.raw + es.piece), es.rest)
    else Run(Handle(st.(raw := st.raw + es.piece), es.delete), es.rest)
  }

  /** A state holds what draining some bytes in one go gives. */
  predicate Holds(st: State, all: seq<byte>) {
    match Drain(all)
    case Wrapped => st.Undefined?
    case Drained(data, rest, ended) => st.State? && st.deleted + st.body == data && st.raw == rest && st.ended == ended
  }

  lemma HandleHolds(st: State, all: seq<byte>, piece: seq<byte>, delete: bool)
    requires st.State? && !st.ended && Holds(st, all)
    ensures Holds(Handle(st.(raw := st.raw + piece), delete), all + piece)
  {
    hide Drain;
    DrainAppend(all, piece);
    var raw := st.raw + piece;
    var d := Drain(raw);
    if d.Drained? {
      Kept(st.deleted, st.body, d.data);
      assert d.rest == raw ==> d.data == [];
    }
  }

  lemma Kept(deleted: seq<byte>, body: seq<byte>, data: seq<byte>)
    ensures (deleted + (body + data)) + [] == (deleted + body) + data == deleted + (body + data)
    ensures data == [] ==> (deleted + body) + data == deleted + body
  {
  }

  lemma EndedHolds(st: State, all: seq<byte>, piece: seq<byte>)
    requires st.State? && st.ended && Holds(st, all)
    ensures Holds(st.(raw := st.raw + piece), all + piece)
  {
    DrainAppend(all, piece);
  }

  lemma {:induction false} RunHolds(st: State, all: seq<byte>, es: Events)
    requires Holds(st, all)
    ensures Holds(Run(st, es), all + Arrived(es))
    decreases es
  {
    hide Holds, Handle, Drain;
    if es.NoEvents? {
      assert all + [] == all;
    } else {
      assert (all + es.piece) + Arrived(es.rest) == all + Arrived(es);
      if st.Undefined? {
        UndefinedHolds(st, all, Arrived(es));
      } else if st.ended {
        EndedHolds(st, all, es.piece);
        RunHolds(st.(raw := st.raw + es.piece), all + es.piece, es.rest);
      } else {
        HandleHolds(st, all, es.piece, es.delete);
        RunHolds(Handle(st.(raw := st.raw + es.piece), es.delete), all + es.piece, es.rest);
      }
    }
  }

  lemma UndefinedHolds(st: State, all: seq<byte>, more: seq<byte>)
    requires st.Undefined? && Holds(st, all)
    ensures Holds(st, all + more)
  {
    DrainAppend(all, more);
  }

  const START := State([], [], [], false)

  /**
   For every stream of bytes and every way it arrives: what has been delivered and deleted,
   then the body in the buffer, is the decoded data, and the raw bytes behind it are untouched.
   */
  lemma ArrivalIndependent(es: Events)
    ensures Holds(Run(START, es), Arrived(es))
  {
    assert Scan([], 0) == Scanned(0, []);
    assert Drain([]) == Drained([], [], false);
    RunHolds(START, [], es);
    assert [] + Arrived(es) == Arrived(es);
  }

  // ----- what the sender writes

  function HexDigit(d: nat): byte
    requires d < 16
  {
    if d < 10 then 48 + d else 65 + (d - 10)
  }

  function HexText(n: nat): (s: seq<byte>)
    ensures s != []
  {
    if n < 16 then [HexDigit(n)] else HexText(n / 16) + [HexDigit(n % 16)]
  }

  /** A chunk and the bytes that follow it. */
  function Send(data: seq<byte>, t: seq<byte>): seq<byte> {
    HexText(|data|) + ([CR, LF] + (data + ([CR, LF] + t)))
  }

  datatype Chunks = Last | More(data: seq<byte>, rest: Chunks)

  /** All chunks have data; the list ends with the zero chunk. */
  predicate Sendable(cs: Chunks) {
    cs.More? ==> cs.data != [] && |cs.data| + 20 < TWO_64 && Sendable(cs.rest)
  }

  function SendAll(cs: Chunks, t: seq<byte>): seq<byte> {
    if cs.Last? then Send([], t) else Send(cs.data, SendAll(cs.rest, t))
  }

  function Data(cs: Chunks): seq<byte> {
    if cs.Last? then [] else cs.data + Data(cs.rest)
  }

  lemma AccumulateDigit(n: nat)
    requires n < TWO_64
    ensures IsHex(HexDigit(n % 16)) && Accumulate(n / 16, HexDigit(n % 16)) == n
  {
    assert HexValue(HexDigit(n % 16)) == n % 16;
  }

  lemma ScanOne(d: byte, t: seq<byte>, n: nat)
    requires IsHex(d)
    ensures Scan([d] + t, n) == Scan(t, Accumulate(n, d))
  {
    hide Accumulate;
    assert ([d] + t)[1..] == t;
  }

  lemma {:induction false} ScanHex(n: nat, t: seq<byte>)
    requires n < TWO_64
    ensures Scan(HexText(n) + t, 0) == Scan(t, n)
    decreases n
  {
    hide Accumulate, HexDigit, Scan;
    AccumulateDigit(n);
    var d := HexDigit(n % 16);
    ScanOne(d, t, n / 16);
    if n < 16 {
      assert HexText(n) == [d];
    } else {
      assert HexText(n) + t == HexText(n / 16) + ([d] + t);
      ScanHex(n / 16, [d] + t);
    }
  }

  lemma {:induction false} HexLength(n: nat, k: nat)
    requires k > 0 && n < Pow16(k)
    ensures |HexText(n)| <= k
    decreases k
  {
    if n >= 16 { HexLength(n / 16, k - 1); }
  }

  function Pow16(k: nat): nat {
    if k == 0 then 1 else 16 * Pow16(k - 1)
  }

  lemma SixteenDigits()
    ensures Pow16(16) == TWO_64
  {
    assert Pow16(2) == 0x100;
    assert Pow16(4) == 0x1_0000 by { assert Pow16(4) == 0x100 * Pow16(2); }
    assert Pow16(8) == 0x1_0000_0000 by { assert Pow16(6) == 0x100 * Pow16(4); }
    assert Pow16(10) == 0x100 * Pow16(8);
    assert Pow16(12) == 0x100 * Pow16(10);
    assert Pow16(14) == 0x100 * Pow16(12);
  }

  lemma AfterSizeSent(data: seq<byte>, t: seq<byte>, offset: nat)
    requires offset + |data| + 4 < TWO_64
    ensures AfterSize(|data|, offset, [CR, LF] + (data + ([CR, LF] + t))) == Chunk(data, t)
  {
    var n := |data|;
    var u := data + ([CR, LF] + t);
    assert ([CR, LF] + u)[2..] == u;
    assert u[..n] == data && u[n..] == [CR, LF] + t && u[n + 2..] == t;
  }

  /** The decoder takes a sent chunk apart. */
  lemma ParseSent(data: seq<byte>, t: seq<byte>)
    requires |data| + 20 < TWO_64
    ensures Parse(Send(data, t)) == Chunk(data, t)
  {
    hide HexText, Scan, AfterSize;
    var n := |data|;
    var line := [CR, LF] + (data + ([CR, LF] + t));
    ScanHex(n, line);
    ScanStops(line, n);
    SixteenDigits();
    HexLength(n, 16);
    AfterSizeSent(data, t, |HexText(n)|);
  }

  /** Every list of chunks decodes to its data, with what follows the zero chunk left over. */
  lemma {:induction false} DrainSent(cs: Chunks, t: seq<byte>)
    requires Sendable(cs)
    ensures Drain(SendAll(cs, t)) == Drained(Data(cs), t, true)
  {
    hide Parse, Send;
    if cs.Last? {
      ParseSent([], t);
    } else {
      ParseSent(cs.data, SendAll(cs.rest, t));
      DrainSent(cs.rest, t);
    }
  }

  /** Whenever the whole stream has arrived, exactly the sent data has been delivered or is in the buffer. */
  lemma SentDelivered(cs: Chunks, t: seq<byte>, es: Events)
    requires Sendable(cs) && Arrived(es) == SendAll(cs, t)
    ensures var st := Run(START, es); st.State? && st.ended && st.deleted + st.body == Data(cs) && st.raw == t
  {
    hide Run, SendAll, Drain;
    ArrivalIndependent(es);
    DrainSent(cs, t);
  }

  // ----- a part of the stream

  lemma {:induction false} ScanDigits(h: seq<byte>, k: nat, n: nat)
    requires k <= |h| && forall i :: 0 <= i < |h| ==> IsHex(h[i])
    ensures Scan(h[..k], n).rest == []
    decreases k
  {
    if k > 0 {
      assert h[..k][1..] == h[1..][..k - 1];
      ScanDigits(h[1..], k - 1, Accumulate(n, h[0]));
    }
  }

  lemma {:induction false} HexTextHex(n: nat)
    ensures forall i :: 0 <= i < |HexText(n)| ==> IsHex(HexText(n)[i])
  {
    if n >= 16 { HexTextHex(n / 16); }
  }

  lemma AfterSizeWaits(data: seq<byte>, k: nat, offset: nat)
    requires k < |data| + 4 && offset + |data| + 4 < TWO_64
    ensures AfterSize(|data|, offset, ([CR, LF] + (data + ([CR, LF] + [])))[..k]).Incomplete?
  {
  }

  /** Part of the size is no chunk. */
  lemma SizeWaits(n: nat, k: nat)
    requires k <= |HexText(n)|
    ensures Parse(HexText(n)[..k]).Incomplete?
  {
    hide HexText, Scan, AfterSize;
    var part := HexText(n)[..k];
    HexTextHex(n);
    ScanDigits(HexText(n), k, 0);
    NoLine(Scan(part, 0).n, k);
  }

  lemma LineWaits(data: seq<byte>, k: nat)
    requires |data| + 20 < TWO_64 && 0 < k < |data| + 4
    ensures Parse(HexText(|data|) + ([CR, LF] + (data + ([CR, LF] + [])))[..k]).Incomplete?
  {
    hide HexText, Scan, AfterSize;
    var n, line := |data|, ([CR, LF] + (data + ([CR, LF] + [])))[..k];
    assert line != [] && line[0] == CR;
    ScanHex(n, line);
    ScanStops(line, n);
    SixteenDigits();
    HexLength(n, 16);
    AfterSizeWaits(data, k, |HexText(n)|);
  }

  /** A chunk that has not arrived whole waits. */
  lemma PartWaits(data: seq<byte>, k: nat)
    requires |data| + 20 < TWO_64 && k < |Send(data, [])|
    ensures Parse(Send(data, [])[..k]).Incomplete?
  {
    hide HexText, Parse;
    var h, line := HexText(|data|), [CR, LF] + (data + ([CR, LF] + []));
    if k <= |h| {
      SizeWaits(|data|, k);
      assert (h + line)[..k] == h[..k];
    } else {
      LineWaits(data, k - |h|);
      assert (h + line)[..k] == h + line[..k - |h|];
    }
  }

  lemma ScanStops(s: seq<byte>, n: nat)
    requires s != [] && s[0] == CR
    ensures Scan(s, n) == Scanned(n, s)
  {
  }

  /** Of a part of the stream, the whole chunks are decoded and the begun one is left as it is. */
  lemma DrainPart(cs: Chunks, data: seq<byte>, k: nat)
    requires Sendable(cs) && |data| + 20 < TWO_64 && k < |Send(data, [])|
    ensures Drain(SendSome(cs, Send(data, [])[..k])) == Drained(Data(cs), Send(data, [])[..k], false)
  {
    hide Parse, Send;
    if cs.Last? {
      PartWaits(data, k);
    } else {
      ParseSent(cs.data, SendSome(cs.rest, Send(data, [])[..k]));
      DrainPart(cs.rest, data, k);
    }
  }

  /** The chunks without the zero chunk. */
  function SendSome(cs: Chunks, t: seq<byte>): seq<byte> {
    if cs.Last? then t else Send(cs.data, SendSome(cs.rest, t))
  }
}
