/**
 mg_handle_chunked as it runs: chunk data is moved down over the framing inside the receive
 buffer, and the unparsed rest after it.
 */
module ChunkedBody {
  import opened Bytes
  import opened Mbufs
  import opened Chunked

  /** Where a chunk lies; total is 0 when none is complete. */
  datatype Found = Found(total: nat, at: nat, len: nat, wraps: bool)

  /** The outcome of a scan is the chunk the text starts with. */
  predicate Finds(f: Found, s: seq<byte>, p: Parsed) {
    match p
    case Incomplete => f.total == 0 && !f.wraps
    case Overflow => f.wraps
    case Chunk(data, rest) =>
      && !f.wraps && 0 < f.total <= |s| && f.at + f.len + 2 == f.total
      && data == s[f.at..f.at + f.len] && rest == s[f.total..]
  }

  lemma ScanStep(s: seq<byte>, i: nat, n: nat)
    requires i < |s| && IsHex(s[i])
    ensures Scan(s[i..], n) == Scan(s[i + 1..], Accumulate(n, s[i]))
  {
    hide Accumulate;
    assert s[i..][1..] == s[i + 1..];
  }

  lemma ScanDone(s: seq<byte>, i: nat, n: nat)
    requires i <= |s| && (i < |s| ==> !IsHex(s[i]))
    ensures Scan(s[i..], n) == Scanned(n, s[i..])
  {
  }

  method ScanSize(s: seq<byte>) returns (n: nat, i: nat)
    ensures SizeEnds(s, i, n)
  {
    hide Scan, Accumulate;
    n, i := 0, 0;
    assert s[0..] == s;
    while i < |s| && IsHex(s[i])
      invariant i <= |s| && Scan(s, 0) == Scan(s[i..], n)
    {
      ScanStep(s, i, n);
      n := Accumulate(n, s[i]);
      i := i + 1;
    }
    ScanDone(s, i, n);
  }

  method ParseChunk(s: seq<byte>) returns (f: Found)
    requires |s| < TWO_64
    ensures Finds(f, s, Parse(s))
  {
    hide Scan, Finds, Parse;
    var n, i := ScanSize(s);
    if i == 0 || i + 2 > |s| || s[i] != CR || s[i + 1] != LF {
      NoChunk(s, i, n);
      return Found(0, 0, 0, false);
    }
    var at := i + 2;
    if at + n + 2 >= TWO_64 {
      TooLong(s, i, n);
      return Found(0, at, n, true);
    }
    if at + n + 2 > |s| || s[at + n] != CR || s[at + n + 1] != LF {
      NotWhole(s, i, n);
      return Found(0, at, n, false);
    }
    Whole(s, i, n);
    f := Found(at + n + 2, at, n, false);
  }

  /** The digits of the size end at i. */
  predicate SizeEnds(s: seq<byte>, i: nat, n: nat) {
    i <= |s| && Scan(s, 0) == Scanned(n, s[i..])
  }

  lemma NoChunk(s: seq<byte>, i: nat, n: nat)
    requires SizeEnds(s, i, n) && (i == 0 || i + 2 > |s| || s[i] != CR || s[i + 1] != LF)
    ensures Finds(Found(0, 0, 0, false), s, Parse(s))
  {
    hide Scan;
  }

  lemma TooLong(s: seq<byte>, i: nat, n: nat)
    requires SizeEnds(s, i, n) && 0 < i <= |s| - 2 && s[i] == CR && s[i + 1] == LF && i + n + 4 >= TWO_64
    ensures Finds(Found(0, i + 2, n, true), s, Parse(s))
  {
    hide Scan;
  }

  lemma NotWhole(s: seq<byte>, i: nat, n: nat)
    requires SizeEnds(s, i, n) && 0 < i <= |s| - 2 && s[i] == CR && s[i + 1] == LF && i + n + 4 < TWO_64
    requires i + n + 4 > |s| || s[i + n + 2] != CR || s[i + n + 3] != LF
    ensures Finds(Found(0, i + 2, n, false), s, Parse(s))
  {
    hide Scan;
    var u := s[i..][2..];
    if n + 2 <= |u| { assert u[n..][0] == s[i + n + 2] && u[n..][1] == s[i + n + 3]; }
  }

  lemma Whole(s: seq<byte>, i: nat, n: nat)
    requires SizeEnds(s, i, n) && 0 < i <= |s| - 2 && s[i] == CR && s[i + 1] == LF && i + n + 4 < TWO_64
    requires i + n + 4 <= |s| && s[i + n + 2] == CR && s[i + n + 3] == LF
    ensures Finds(Found(i + n + 4, i + 2, n, false), s, Parse(s))
  {
    hide Scan;
    var u := s[i..][2..];
    assert u[n..][0] == s[i + n + 2] && u[n..][1] == s[i + n + 3];
    assert u[..n] == s[i + 2..i + 2 + n] && u[n + 2..] == s[i + n + 4..];
  }

  // ----- moving data inside the buffer

  /** Writing d at `at` leaves everything from `from` on as it is. */
  lemma Collapse(b: seq<byte>, start: nat, at: nat, d: seq<byte>, from: nat)
    requires start <= at && at + |d| <= from <= |b|
    ensures var r := b[..at] + d + b[at + |d|..];
            |r| == |b| && r[..start] == b[..start] && r[start..at + |d|] == b[start..at] + d && r[from..] == b[from..]
  {
  }

  /** Part of the way: [start..at) holds decoded data, and draining from `from` on gives the rest. */
  predicate Going(was: seq<byte>, b: seq<byte>, start: nat, at: nat, from: nat) {
    && |b| == |was| && start <= at <= from <= |b|
    && b[..start] == was[..start] && b[from..] == was[from..]
    && Drain(was[start..]) == Before(b[start..at], Drain(b[from..]))
  }

  /** All the way. */
  predicate Collapsed(was: seq<byte>, b: seq<byte>, start: nat, at: nat, from: nat, ended: bool) {
    && |b| == |was| && start <= at <= from <= |b|
    && b[..start] == was[..start] && b[from..] == was[from..]
    && Drain(was[start..]) == Drained(b[start..at], b[from..], ended)
  }

  lemma NothingCollapsed(b: seq<byte>, start: nat)
    requires start <= |b|
    ensures Going(b, b, start, start, start)
  {
    hide Drain;
    BeforeNothing(Drain(b[start..]));
  }

  lemma FoundFits(f: Found, s: seq<byte>)
    requires Finds(f, s, Parse(s))
    ensures !f.wraps && f.total > 0 ==> f.total <= |s| && f.at + f.len + 2 == f.total
  {
    hide Parse;
  }

  /** The loop stops: no chunk is complete, or the size wraps. */
  lemma NoMore(was: seq<byte>, b: seq<byte>, start: nat, at: nat, from: nat, f: Found)
    requires Going(was, b, start, at, from) && Finds(f, b[from..], Parse(b[from..])) && (f.total == 0 || f.wraps)
    ensures f.wraps ==> Drain(was[start..]).Wrapped?
    ensures !f.wraps ==> Collapsed(was, b, start, at, from, false)
  {
    hide Parse;
    assert b[start..at] + [] == b[start..at];
  }

  lemma DrainFound(f: Found, s: seq<byte>)
    requires Finds(f, s, Parse(s)) && !f.wraps && 0 < f.total <= |s| && f.at + f.len + 2 == f.total
    ensures Drain(s) == if f.len == 0 then Drained([], s[f.total..], true) else Before(s[f.at..f.at + f.len], Drain(s[f.total..]))
  {
    hide Parse, Drain;
    DrainChunk(s, s[f.at..f.at + f.len], s[f.total..]);
  }

  lemma DrainChunk(s: seq<byte>, data: seq<byte>, rest: seq<byte>)
    requires Parse(s) == Chunk(data, rest)
    ensures Drain(s) == if |data| == 0 then Drained([], rest, true) else Before(data, Drain(rest))
  {
    hide Parse;
  }

  lemma OneMore(was: seq<byte>, b: seq<byte>, start: nat, at: nat, from: nat, f: Found, d: seq<byte>)
    requires Going(was, b, start, at, from) && Finds(f, b[from..], Parse(b[from..]))
    requires !f.wraps && 0 < f.total <= |b| - from && f.at + f.len + 2 == f.total
    requires d == b[from + f.at..from + f.at + f.len]
    ensures var r := b[..at] + d + b[at + |d|..];
            && (f.len > 0 ==> Going(was, r, start, at + f.len, from + f.total))
            && (f.len == 0 ==> Collapsed(was, r, start, at, from + f.total, true))
  {
    hide Parse, Finds, Drain;
    var s := b[from..];
    DrainFound(f, s);
    assert d == s[f.at..f.at + f.len] && s[f.total..] == b[from + f.total..];
    Collapse(b, start, at, d, from + f.total);
    BeforeTwice(b[start..at], d, Drain(s[f.total..]));
    assert b[start..at] + [] == b[start..at];
    assert was[from..][f.total..] == was[from + f.total..];
  }

  /** The buffer once all chunks are collapsed. */
  lemma Outcome(was: seq<byte>, b: seq<byte>, head: nat, bodyLen: nat, len: nat, i: nat, ended: bool)
    requires head + bodyLen <= |was| && Collapsed(was, b, head + bodyLen, head + len, head + i, ended) && len <= i
    ensures |b| == |was| && head + i <= |b| && bodyLen <= len && b[..head] == was[..head]
    ensures Drain(was[head + bodyLen..]) == Drained(b[head + bodyLen..head + len], b[head + i..], ended)
    ensures b[head..head + len] == was[head..head + bodyLen] + b[head + bodyLen..head + len]
    ensures i == bodyLen ==> b == was
  {
    hide Drain;
    assert was[..head + bodyLen][..head] == was[..head] && b[..head + bodyLen][..head] == b[..head];
    assert was[..head + bodyLen][head..] == was[head..head + bodyLen];
    assert b[head..head + len] == b[..head + bodyLen][head..] + b[head + bodyLen..head + len];
    if i == bodyLen { assert b == b[..head + bodyLen] + b[head + i..] && was == was[..head + bodyLen] + was[head + i..]; }
  }

  /** The buffer after a gap is closed. */
  lemma Closed(b: seq<byte>, head: nat, to: nat, from: nat)
    requires head <= to <= from <= |b|
    ensures var r := b[..to] + b[from..];
            r[..head] == b[..head] && r[head..to] == b[head..to] && r[to..] == b[from..]
  {
  }

  class Body {
    const recv: Mbuf
    var bodyLen: nat
    ghost var deleted: seq<byte>

    constructor (m: Mbuf)
      ensures recv == m && bodyLen == 0 && deleted == []
    {
      recv := m;
      bodyLen := 0;
      deleted := [];
    }

    /** The state behind a header of `head` bytes. */
    ghost function Abs(head: nat, ended: bool): State
      requires head + bodyLen <= |recv.data|
      reads this, recv
    {
      State(recv.data[head..head + bodyLen], recv.data[head + bodyLen..], deleted, ended)
    }

    /** Chunk data is collapsed behind the body; the bytes of chunks not parsed yet keep their place. */
    method CollapseChunks(head: nat) returns (i: nat, len: nat, ended: bool, wraps: bool)
      requires head + bodyLen <= |recv.data| < TWO_64
      modifies recv
      ensures |recv.data| == |old(recv.data)| && bodyLen <= len <= i && head + i <= |recv.data|
      ensures i == len ==> i == bodyLen && !ended
      ensures !wraps ==> Collapsed(old(recv.data), recv.data, head + bodyLen, head + len, head + i, ended)
      ensures wraps ==> Drain(old(recv.data)[head + bodyLen..]).Wrapped?
    {
      hide Drain, Finds, Parse, Collapsed, Going;
      i, len, ended, wraps := bodyLen, bodyLen, false, false;
      ghost var b := recv.data;
      NothingCollapsed(b, head + bodyLen);
      while true
        invariant |recv.data| == |b| && bodyLen <= len <= i && head + i <= |b|
        invariant i == len ==> i == bodyLen
        invariant Going(b, recv.data, head + bodyLen, head + len, head + i)
        decreases |b| - i
      {
        var f := ParseChunk(recv.data[head + i..]);
        FoundFits(f, recv.data[head + i..]);
        if f.total == 0 || f.wraps {
          NoMore(b, recv.data, head + bodyLen, head + len, head + i, f);
        }
        if f.wraps {
          return i, len, false, true;
        }
        if f.total == 0 {
          return;
        }
        var data := recv.data[head + i + f.at..head + i + f.at + f.len];
        OneMore(b, recv.data, head + bodyLen, head + len, head + i, f, data);
        recv.Overwrite(head + len, data);
        len, i := len + f.len, i + f.total;
        if f.len == 0 {
          return i, len, true, false;
        }
      }
    }

    /**
     One call for what follows the header.  The handler is called when a chunk was complete;
     `delete` says whether it asks for the data to be removed.  The length of the message is
     known once the zero chunk has arrived.
     */
    method HandleChunked(head: nat, delete: bool) returns (called: bool, ended: bool, messageLen: nat, wraps: bool)
      requires head + bodyLen <= |recv.data| < TWO_64
      modifies this, recv
      ensures var st := Handle(old(Abs(head, false)), delete);
              if wraps then st.Undefined?
              else
                && head + bodyLen <= |recv.data| && Abs(head, ended) == st
                && recv.data[..head] == old(recv.data)[..head]
                && called == (|recv.data| < |old(recv.data)|)
                && (ended ==> messageLen == |recv.data| - head)
    {
      hide Drain, Collapsed;
      ghost var b := recv.data;
      ghost var start := bodyLen;
      var i, len;
      i, len, ended, wraps := CollapseChunks(head);
      called, messageLen := false, 0;
      if wraps {
        return;
      }
      Outcome(b, recv.data, head, start, len, i, ended);
      if i > len {
        Settle(head, i, len, delete);
        called := true;
        messageLen := |recv.data| - head;
      }
    }

    /** Closes the gap and, when asked to, deletes the body. */
    method Settle(head: nat, i: nat, len: nat, delete: bool)
      requires len <= i && head + i <= |recv.data|
      modifies this, recv
      ensures var body := old(recv.data)[head..head + len];
              && head + bodyLen <= |recv.data|
              && recv.data[..head] == old(recv.data)[..head]
              && recv.data[head..head + bodyLen] == (if delete then [] else body)
              && recv.data[head + bodyLen..] == old(recv.data)[head + i..]
              && deleted == if delete then old(deleted) + body else old(deleted)
    {
      Closed(recv.data, head, head + len, head + i);
      recv.CloseGap(head + len, head + i);
      bodyLen := len;
      if delete {
        deleted := deleted + recv.data[head..head + bodyLen];
        Closed(recv.data, head, head, head + bodyLen);
        recv.CloseGap(head, head + bodyLen);
        bodyLen := 0;
      }
    }
  }
}
