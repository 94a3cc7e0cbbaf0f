/**
 The CoAP message object of mongoose: a singly linked list of options with a tail pointer,
 the composer that writes through a pointer into the output buffer, and the parser.
 */
module CoapMessage {
  import opened Bytes
  import opened Mbufs
  import opened Coap

  class OptionNode {
    const number: nat
    const value: seq<byte>
    var next: OptionNode?

    constructor (number: nat, value: seq<byte>)
      ensures this.number == number && this.value == value && next == null
    {
      this.number := number;
      this.value := value;
      next := null;
    }

    function Value(): Opt {
      Opt(number, value)
    }
  }

  class CoapMessage {
    var msgType: nat
    var codeClass: nat
    var codeDetail: nat
    var msgId: nat
    var token: seq<byte>
    var payload: seq<byte>
    var options: OptionNode?
    var tail: OptionNode?
    ghost var nodes: seq<OptionNode>
    ghost var Repr: set<OptionNode>

    /** The list runs through `nodes` in order and ends at the tail. */
    ghost predicate Valid()
      reads this, Repr
    {
      && (forall i :: 0 <= i < |nodes| ==> nodes[i] in Repr)
      && Distinct(nodes)
      && Linked(nodes)
      && options == (if nodes == [] then null else nodes[0])
      && (nodes != [] ==> tail == nodes[|nodes| - 1])
    }

    ghost function View(): seq<Opt>
      reads this
    {
      Values(nodes)
    }

    ghost function Contents(): Message
      reads this
    {
      Message(msgType, codeClass, codeDetail, msgId, token, View(), payload)
    }

    constructor ()
      ensures Valid() && Repr == {} && Contents() == Message(0, 0, 0, 0, [], [], [])
    {
      msgType, codeClass, codeDetail, msgId := 0, 0, 0, 0;
      token, payload := [], [];
      options, tail := null, null;
      nodes, Repr := [], {};
    }

    /** Walks to the first node with a larger number, keeping the one before it. */
    method Search(number: nat) returns (prev: OptionNode?, current: OptionNode?)
      requires Valid()
      ensures var k := FirstLarger(View(), number);
              k <= |nodes| && current == (if k < |nodes| then nodes[k] else null) && prev == (if k > 0 then nodes[k - 1] else null)
    {
      prev, current := null, options;
      ghost var k := 0;
      while current != null && current.number <= number
        invariant k <= |nodes|
        invariant current == if k < |nodes| then nodes[k] else null
        invariant prev == if k > 0 then nodes[k - 1] else null
        invariant forall i :: 0 <= i < k ==> View()[i].number <= number
        decreases |nodes| - k
      {
        prev, current := current, current.next;
        k := k + 1;
      }
      FirstLargerIs(View(), number, k);
    }

    /** Links a new node in before position k, which is not the end. */
    method LinkBefore(n: OptionNode, prev: OptionNode?, current: OptionNode?, ghost k: nat)
      requires Valid() && n !in Repr && k < |nodes|
      requires current == nodes[k] && prev == (if k > 0 then nodes[k - 1] else null)
      modifies this`options, this`nodes, this`Repr, Repr, n
      ensures Valid() && Repr == old(Repr) + {n} && nodes == old(nodes)[..k] + [n] + old(nodes)[k..]
    {
      if prev != null {
        LinkBehind(n, prev, current, k);
      } else {
        LinkFirst(n);
        assert old(nodes)[..0] + [n] + old(nodes)[0..] == [n] + old(nodes);
      }
    }

    method LinkBehind(n: OptionNode, prev: OptionNode, current: OptionNode?, ghost k: nat)
      requires Valid() && n !in Repr && 0 < k < |nodes| && current == nodes[k] && prev == nodes[k - 1]
      modifies this`nodes, this`Repr, Repr, n
      ensures Valid() && Repr == old(Repr) + {n} && nodes == old(nodes)[..k] + [n] + old(nodes)[k..]
    {
      hide Distinct, Linked;
      ghost var was := nodes;
      DistinctInsert(was, n, k);
      Ends(was, n, k);
      Unlinked(was, k);
      nodes, Repr := was[..k] + [n] + was[k..], Repr + {n};
      prev.next := n;
      n.next := current;
      LinkedInsert(was, n, k);
    }

    method LinkFirst(n: OptionNode)
      requires Valid() && n !in Repr && nodes != []
      modifies this`options, this`nodes, this`Repr, n
      ensures Valid() && Repr == old(Repr) + {n} && nodes == [n] + old(nodes)
    {
      hide Distinct, Linked;
      ghost var was := nodes;
      DistinctInsert(was, n, 0);
      assert was[..0] + [n] + was[0..] == [n] + was;
      nodes, Repr := [n] + was, Repr + {n};
      Chained(was);
      n.next := options;
      options := n;
      LinkedInsert(was, n, 0);
    }

    method LinkLast(n: OptionNode)
      requires Valid() && n !in Repr && n.next == null && nodes != []
      modifies this`tail, this`nodes, this`Repr, Repr
      ensures Valid() && Repr == old(Repr) + {n} && nodes == old(nodes) + [n]
    {
      ghost var was := nodes;
      DistinctInsert(was, n, |was|);
      assert was[..|was|] + [n] + was[|was|..] == was + [n];
      tail.next := n;
      tail := n;
      nodes, Repr := nodes + [n], Repr + {n};
    }

    /** Adds an option where the numbers ask for it, behind any with the same number. */
    method AddOption(number: nat, value: seq<byte>)
      requires Valid()
      modifies this`options, this`tail, this`nodes, this`Repr, Repr
      ensures Valid() && fresh(Repr - old(Repr))
      ensures View() == Insert(old(View()), Opt(number, value))
    {
      hide FirstLarger, Distinct, Linked, Insert;
      var n := new OptionNode(number, value);
      ghost var before, k := nodes, |nodes|;
      if options == null {
        options, tail := n, n;
        nodes, Repr := [n], Repr + {n};
        SingleNode(n);
      } else if tail.number <= number {
        LinkLast(n);
      } else {
        k := FirstLarger(View(), number);
        var prev, current := Search(number);
        SearchStops(before, number);
        LinkBefore(n, prev, current, k);
      }
      Inserted(before, n, k, nodes);
    }

    // ----- composing

    /** Verifies the message and computes the size of its packet. */
    method PacketSize() returns (reject: seq<Field>, len: nat)
      requires Valid()
      ensures reject == Rejection(Contents())
      ensures reject == [] ==> len == 4 + |token| + |PayloadBytes(payload)| + OptionsSize(View(), 0)
    {
      len := 4;
      if msgType > 3 { return [TypeField], len; }
      if |token| > 8 { return [TokenField], len; }
      if codeClass > 7 { return [CodeClassField], len; }
      if codeDetail > 31 { return [CodeDetailField], len; }
      len := len + |token|;
      if payload != [] {
        len := len + |payload| + 1;
      }
      ghost var base := len;
      ghost var view := View();
      var opt := options;
      var prev: nat := 0;
      ghost var k := 0;
      assert view[0..] == view;
      while opt != null
        invariant k <= |nodes| && opt == if k < |nodes| then nodes[k] else null
        invariant OptionsOk(view, 0) <==> OptionsOk(view[k..], prev)
        invariant len + OptionsSize(view[k..], prev) == base + OptionsSize(view, 0)
        invariant opt != null ==> prev <= opt.number
        decreases |nodes| - k
      {
        assert view[k..][1..] == view[k + 1..];
        var delta := opt.number - prev;
        len := len + 1 + ExtSize(delta) + ExtSize(|opt.value|);
        if (opt.next != null && opt.number > opt.next.number) || |opt.value| > MAX_EXT || delta > MAX_EXT {
          return [OptionsField], len;
        }
        len := len + |opt.value|;
        prev := opt.number;
        opt := opt.next;
        k := k + 1;
      }
      reject := [];
    }

    /** Appends the packet to the buffer, writing through a pointer into space of the computed size. */
    method Compose(io: Mbuf) returns (reject: seq<Field>)
      requires Valid() && msgId < 0x1_0000
      modifies io
      ensures match Coap.Compose(Contents())
              case Rejected(f) => reject == [f] && io.data == old(io.data)
              case Packet(b) => reject == [] && io.data == old(io.data) + b
    {
      hide OptionsOk, OptionsBytes, PayloadBytes, HeaderBytes, Sorted, Distinct, Linked, OptionsSize;
      var size;
      reject, size := PacketSize();
      if reject != [] {
        return;
      }
      OptionsOkSorted(View(), 0);
      OptionsSizeIs(View(), 0);
      WritePacket(io, size);
    }

    method WritePacket(io: Mbuf, size: nat)
      requires Valid() && msgType <= 3 && |token| <= 8 && codeClass <= 7 && codeDetail <= 31 && msgId < 0x1_0000
      requires Sorted(View()) && size == 4 + |token| + |PayloadBytes(payload)| + |OptionsBytes(View(), 0)|
      modifies io
      ensures io.data == old(io.data) + (HeaderBytes(Contents()) + (token + (OptionsBytes(View(), 0) + PayloadBytes(payload))))
    {
      hide OptionsBytes, PayloadBytes, HeaderBytes, Sorted, Distinct, Linked;
      ghost var before, view := io.data, View();
      var ptr := |io.data|;
      var _ := io.Append(seq(size, _ => 0), true);
      assert io.data[..ptr] == before;
      ptr := EmitHeader(io, ptr);
      ptr := EmitOptions(io, ptr);
      ptr := EmitPayload(io, ptr);
      assert io.data == io.data[..ptr];
      Joined(before, HeaderBytes(Contents()), token, OptionsBytes(view, 0), PayloadBytes(payload));
    }

    method EmitHeader(io: Mbuf, start: nat) returns (ptr: nat)
      requires msgType <= 3 && |token| <= 8 && codeClass <= 7 && codeDetail <= 31 && msgId < 0x1_0000
      requires start + 4 + |token| <= |io.data|
      modifies io
      ensures ptr == start + 4 + |token| && |io.data| == |old(io.data)|
      ensures io.data[..ptr] == old(io.data)[..start] + HeaderBytes(Contents()) + token
    {
      ptr := Emit(io, start, [64 + msgType * 16 + |token|]);
      ptr := Emit(io, ptr, [codeClass * 32 + codeDetail]);
      ptr := Emit(io, ptr, [msgId / 256, msgId % 256]);
      ptr := Emit(io, ptr, token);
    }

    method EmitPayload(io: Mbuf, start: nat) returns (ptr: nat)
      requires start + |PayloadBytes(payload)| <= |io.data|
      modifies io
      ensures ptr == start + |PayloadBytes(payload)| && |io.data| == |old(io.data)|
      ensures io.data[..ptr] == old(io.data)[..start] + PayloadBytes(payload)
    {
      ptr := start;
      if payload != [] {
        ptr := Emit(io, ptr, [0xFF]);
        ptr := Emit(io, ptr, payload);
      }
    }

    method EmitOptions(io: Mbuf, start: nat) returns (ptr: nat)
      requires Valid() && Sorted(View())
      requires start + |OptionsBytes(View(), 0)| <= |io.data|
      modifies io
      ensures ptr == start + |OptionsBytes(View(), 0)| <= |io.data| == |old(io.data)|
      ensures io.data[..ptr] == old(io.data)[..start] + OptionsBytes(View(), 0)
    {
      hide OptionBytes, Sorted, Distinct, OptionsBytes;
      ptr := start;
      ghost var view := View();
      ghost var all := io.data[..start] + OptionsBytes(view, 0);
      var opt := options;
      var prev: nat := 0;
      ghost var k := 0;
      assert view[0..] == view;
      while opt != null
        invariant k <= |nodes| && opt == if k < |nodes| then nodes[k] else null
        invariant Sorted(view[k..]) && (opt != null ==> prev <= opt.number)
        invariant |io.data| == |old(io.data)| && ptr + |OptionsBytes(view[k..], prev)| == start + |OptionsBytes(view, 0)|
        invariant io.data[..ptr] + OptionsBytes(view[k..], prev) == all
        decreases |nodes| - k
      {
        ghost var rest, more := view[k..], view[k + 1..];
        assert rest[1..] == more && rest[0] == opt.Value();
        OptionsStep(io.data[..ptr], rest, more, prev);
        ptr := EmitOption(io, ptr, opt.number - prev, opt.value);
        prev := opt.number;
        opt := opt.next;
        k := k + 1;
      }
      NoOptions(prev);
      assert view[k..] == [];
    }

    // ----- parsing

    /** Reads options from `start` to the payload marker or the end of the packet; frees them all on an error. */
    method GetOptions(p: seq<byte>, start: nat) returns (failed: bool, error: Error, ptr: nat)
      requires Valid() && nodes == [] && Repr == {} && start <= |p|
      modifies this`options, this`tail, this`nodes, this`Repr
      ensures Valid()
      ensures match ParseOptions(p[start..], 0, [])
              case Bad(e) => failed && error == e && View() == []
              case Good(s, rest) => !failed && View() == s && ptr <= |p| && p[ptr..] == rest
    {
      hide Distinct, Linked, Insert;
      failed, error, ptr := false, FormatError, start;
      var prev: nat := 0;
      assert View() == [];
      while ptr < |p| && p[ptr] != 0xFF && !failed
        invariant Valid() && ptr <= |p| && fresh(Repr)
        invariant if failed then ParseOptions(p[start..], 0, []) == Bad(error)
                  else ParseOptions(p[ptr..], prev, View()) == ParseOptions(p[start..], 0, [])
        decreases |p| - ptr, !failed
      {
        var number, value;
        failed, error, number, value, ptr := GetOption(p, ptr, prev, View());
        if !failed {
          AddOption(number, value);
          prev := number;
        }
      }
      if failed {
        options, tail := null, null;
        nodes, Repr := [], {};
        NoNodes();
      }
    }

    /** Clears every field. */
    method Reset()
      modifies this
      ensures Valid() && nodes == [] && Repr == {} && Contents() == Message(0, 0, 0, 0, [], [], [])
    {
      msgType, codeClass, codeDetail, msgId := 0, 0, 0, 0;
      token, payload := [], [];
      options, tail := null, null;
      nodes, Repr := [], {};
    }

    /** Parses a packet into this message. */
    method Parse(p: seq<byte>) returns (failed: bool, error: Error, present: Present)
      modifies this
      ensures Valid()
      ensures match Coap.Parse(p)
              case Failed(e) => failed && error == e
              case Parsed(m, pr) => !failed && Contents() == m && present == pr
    {
      hide ParseBody, Distinct, Linked;
      failed, error, present := true, NotEnoughData, Present(false, false, false);
      Reset();
      if |p| < 4 { return; }
      if p[0] / 64 != 1 { return true, Ignore, present; }
      msgType := p[0] / 16 % 4;
      var tokenSize := p[0] % 16;
      if tokenSize > 8 { return true, FormatError, present; }
      codeClass, codeDetail := p[1] / 32, p[1] % 32;
      msgId := p[2] as int * 256 + p[3];
      if |p| < 4 + tokenSize { return; }
      token := p[4..4 + tokenSize];
      failed, error, present := ParseRest(p, 4 + tokenSize);
    }

    /** Options and payload of a message whose header and token are set. */
    method ParseRest(p: seq<byte>, start: nat) returns (failed: bool, error: Error, present: Present)
      requires Valid() && nodes == [] && Repr == {} && payload == [] && start <= |p|
      modifies this`options, this`tail, this`nodes, this`Repr, this`payload
      ensures Valid()
      ensures match ParseBody(old(Contents()), p[start..])
              case Failed(e) => failed && error == e
              case Parsed(m, pr) => !failed && Contents() == m && present == pr
    {
      hide ParseOptions, Distinct, Linked;
      failed, error, present := false, FormatError, Present(token != [], false, false);
      if start == |p| {
        return;
      }
      var ptr;
      failed, error, ptr := GetOptions(p, start);
      if failed {
        return;
      }
      if ptr < |p| {
        assert p[ptr..][1..] == p[ptr + 1..];
        payload := p[ptr + 1..];
      }
      present := Present(token != [], true, payload != []);
    }
  }

  /** Reads one extended field at ptr. */
  method GetExtOpt(p: seq<byte>, ptr: nat, nibble: nat) returns (ok: bool, value: nat, next: nat)
    requires ptr <= |p|
    ensures if ok then next <= |p| && GetExt(nibble, p[ptr..]) == Ext(value, p[next..]) else GetExt(nibble, p[ptr..]) == NoExt
  {
    ok, value, next := true, nibble, ptr;
    if nibble == 13 {
      if ptr < |p| {
        value, next := p[ptr] as int + 13, ptr + 1;
      } else {
        ok := false;
      }
    } else if nibble == 14 {
      if ptr + 1 < |p| {
        value, next := (p[ptr] as int * 256 + p[ptr + 1] + 269) % 0x1_0000, ptr + 2;
      } else {
        ok := false;
      }
    }
  }

  /** One round of the option loop: the option at ptr. */
  method GetOption(p: seq<byte>, ptr: nat, prev: nat, ghost acc: seq<Opt>)
    returns (failed: bool, error: Error, number: nat, value: seq<byte>, next: nat)
    requires ptr < |p| && p[ptr] != 0xFF
    ensures failed ==> ParseOptions(p[ptr..], prev, acc) == Bad(error) && next == ptr
    ensures !failed ==> ptr < next <= |p|
                        && ParseOptions(p[ptr..], prev, acc) == ParseOptions(p[next..], number, Insert(acc, Opt(number, value)))
  {
    hide GetExt, Insert;
    failed, error, number, value, next := true, FormatError, 0, [], ptr;
    assert p[ptr..][0] == p[ptr] && p[ptr..][1..] == p[ptr + 1..];
    var delta, len := p[ptr] / 16, p[ptr] % 16;
    if delta == 15 || len == 15 {
      return;
    }
    error := NotEnoughData;
    var ok, at;
    ok, delta, at := GetExtOpt(p, ptr + 1, delta);
    if !ok {
      return;
    }
    ok, len, at := GetExtOpt(p, at, len);
    if !ok || at + len > |p| {
      return;
    }
    failed, number, value, next := false, (delta + prev) % 0x1_0000, p[at..at + len], at + len;
    assert p[at..][..len] == value && p[at..][len..] == p[next..];
  }

  /** Writes bytes at ptr and steps past them. */
  method Emit(io: Mbuf, ptr: nat, bytes: seq<byte>) returns (next: nat)
    requires ptr + |bytes| <= |io.data|
    modifies io
    ensures next == ptr + |bytes| && |io.data| == |old(io.data)|
    ensures io.data[..next] == old(io.data)[..ptr] + bytes
  {
    io.Overwrite(ptr, bytes);
    next := ptr + |bytes|;
  }

  method EmitOption(io: Mbuf, ptr: nat, delta: nat, value: seq<byte>) returns (next: nat)
    requires ptr + |OptionBytes(delta, value)| <= |io.data|
    modifies io
    ensures next == ptr + |OptionBytes(delta, value)| && |io.data| == |old(io.data)|
    ensures io.data[..next] == old(io.data)[..ptr] + OptionBytes(delta, value)
  {
    hide ExtBase, ExtBytes, ExtSize;
    next := Emit(io, ptr, [ExtBase(delta) * 16 + ExtBase(|value|)]);
    next := Emit(io, next, ExtBytes(delta));
    next := Emit(io, next, ExtBytes(|value|));
    next := Emit(io, next, value);
  }

  lemma Joined(a: seq<byte>, b: seq<byte>, c: seq<byte>, d: seq<byte>, e: seq<byte>)
    ensures a + b + c + d + e == a + (b + (c + (d + e)))
  {
  }

  lemma OptionsStep(written: seq<byte>, rest: seq<Opt>, more: seq<Opt>, prev: nat)
    requires rest != [] && Sorted(rest) && prev <= rest[0].number && more == rest[1..]
    ensures Sorted(more) && (more != [] ==> rest[0].number <= more[0].number)
    ensures |OptionsBytes(rest, prev)| == |OptionBytes(rest[0].number - prev, rest[0].value)| + |OptionsBytes(more, rest[0].number)|
    ensures written + OptionsBytes(rest, prev)
         == (written + OptionBytes(rest[0].number - prev, rest[0].value)) + OptionsBytes(more, rest[0].number)
  {
    hide OptionBytes, Sorted;
    SortedTail(rest);
  }

  /** The size the composer computes for a list of options. */
  function OptionsSize(s: seq<Opt>, prev: nat): nat {
    if s == [] then 0
    else
      var delta := if prev <= s[0].number then s[0].number - prev else 0;
      1 + ExtSize(delta) + ExtSize(|s[0].value|) + |s[0].value| + OptionsSize(s[1..], s[0].number)
  }

  lemma {:induction false} OptionsSizeIs(s: seq<Opt>, prev: nat)
    requires Sorted(s) && (s != [] ==> prev <= s[0].number)
    ensures |OptionsBytes(s, prev)| == OptionsSize(s, prev)
  {
    hide OptionBytes;
    if s != [] {
      SortedTail(s);
      OptionsSizeIs(s[1..], s[0].number);
    }
  }

  ghost predicate Distinct(nodes: seq<OptionNode>) {
    forall i, j :: 0 <= i < j < |nodes| ==> nodes[i] != nodes[j]
  }

  lemma DistinctInsert(nodes: seq<OptionNode>, n: OptionNode, k: nat)
    requires Distinct(nodes) && k <= |nodes| && (forall i :: 0 <= i < |nodes| ==> nodes[i] != n)
    ensures Distinct(nodes[..k] + [n] + nodes[k..])
  {
    var r := nodes[..k] + [n] + nodes[k..];
    forall i, j | 0 <= i < j < |r| ensures r[i] != r[j] {
      assert r[i] == if i < k then nodes[i] else if i == k then n else nodes[i - 1];
      assert r[j] == if j < k then nodes[j] else if j == k then n else nodes[j - 1];
    }
  }

  ghost predicate Linked(nodes: seq<OptionNode>)
    reads nodes
  {
    forall i :: 0 <= i < |nodes| ==> nodes[i].next == Successor(nodes, i)
  }

  lemma Ends(nodes: seq<OptionNode>, n: OptionNode, k: nat)
    requires 0 < k < |nodes|
    ensures var r := nodes[..k] + [n] + nodes[k..];
            && |r| == |nodes| + 1 && r[0] == nodes[0] && r[|r| - 1] == nodes[|nodes| - 1]
            && forall i :: 0 <= i < |r| ==> r[i] in nodes || r[i] == n
  {
  }

  lemma Chained(nodes: seq<OptionNode>)
    requires Linked(nodes)
    ensures forall i :: 0 <= i < |nodes| ==> nodes[i].next == Successor(nodes, i)
  {
  }

  /** What stays when the link of node k - 1 is changed. */
  lemma Unlinked(nodes: seq<OptionNode>, k: nat)
    requires Distinct(nodes) && Linked(nodes) && 0 < k <= |nodes|
    ensures forall i :: 0 <= i < |nodes| && i != k - 1 ==> nodes[i] != nodes[k - 1] && nodes[i].next == Successor(nodes, i)
  {
  }

  lemma LinkedInsert(nodes: seq<OptionNode>, n: OptionNode, k: nat)
    requires k < |nodes| && n.next == nodes[k] && (k > 0 ==> nodes[k - 1].next == n)
    requires forall i :: 0 <= i < |nodes| && i != k - 1 ==> nodes[i].next == Successor(nodes, i)
    ensures Linked(nodes[..k] + [n] + nodes[k..])
  {
    var r := nodes[..k] + [n] + nodes[k..];
    forall i | 0 <= i < |r| ensures r[i].next == Successor(r, i) {
      if i > k {
        assert r[i] == nodes[i - 1];
      }
    }
  }

  lemma NoNodes()
    ensures Distinct([]) && Linked([]) && Values([]) == []
  {
  }

  lemma SingleNode(n: OptionNode)
    requires n.next == null
    ensures Distinct([n]) && Linked([n])
  {
  }

  ghost function Successor(nodes: seq<OptionNode>, i: nat): OptionNode?
    requires i < |nodes|
  {
    if i + 1 < |nodes| then nodes[i + 1] else null
  }

  ghost function Values(nodes: seq<OptionNode>): (s: seq<Opt>)
    ensures |s| == |nodes|
  {
    seq(|nodes|, i requires 0 <= i < |nodes| => nodes[i].Value())
  }

  lemma ValuesSplit(nodes: seq<OptionNode>, n: OptionNode, k: nat)
    requires k <= |nodes|
    ensures Values(nodes[..k] + [n] + nodes[k..]) == Values(nodes)[..k] + [n.Value()] + Values(nodes)[k..]
  {
  }

  lemma Inserted(before: seq<OptionNode>, n: OptionNode, k: nat, after: seq<OptionNode>)
    requires k == InsertAt(Values(before), n.number)
    requires after == (if k == |before| then before + [n] else before[..k] + [n] + before[k..])
    ensures Values(after) == Insert(Values(before), n.Value())
  {
    if k == |before| {
      assert before + [n] == before[..k] + [n] + before[k..];
    }
    ValuesSplit(before, n, k);
  }

  /** When the last number is larger, the search stops before the end. */
  lemma SearchStops(nodes: seq<OptionNode>, number: nat)
    requires nodes != [] && nodes[|nodes| - 1].number > number
    ensures FirstLarger(Values(nodes), number) < |nodes|
  {
    var s := Values(nodes);
    assert s[|s| - 1].number > number;
  }

  lemma FirstLargerIs(s: seq<Opt>, number: nat, k: nat)
    requires k <= |s| && (forall i :: 0 <= i < k ==> s[i].number <= number) && (k < |s| ==> s[k].number > number)
    ensures FirstLarger(s, number) == k
  {
    var f := FirstLarger(s, number);
    if f < k {
      assert false;
    } else if k < f {
      assert false;
    }
  }
}
