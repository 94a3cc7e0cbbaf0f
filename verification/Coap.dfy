/**
 CoAP messages (sections 3 and 3.1 of RFC 7252) as mongoose composes and parses them,
 on values.
 */
module Coap {
  import opened Bytes

  datatype Opt = Opt(number: nat, value: seq<byte>)

  /** The message fields; the C types hold 8 bits, 16 for the identifier and 32 for option numbers. */
  datatype Message = Message(msgType: nat, codeClass: nat, codeDetail: nat, msgId: nat,
                             token: seq<byte>, options: seq<Opt>, payload: seq<byte>)

  datatype Field = TypeField | CodeClassField | CodeDetailField | TokenField | OptionsField

  const MAX_EXT := 0xFFFF + 269

  // ----- options in order

  predicate Sorted(s: seq<Opt>) {
    forall i, j :: 0 <= i <= j < |s| ==> s[i].number <= s[j].number
  }

  /** Position of the first option with a larger number. */
  function FirstLarger(s: seq<Opt>, number: nat): (k: nat)
    ensures k <= |s|
    ensures forall i :: 0 <= i < k ==> s[i].number <= number
    ensures k < |s| ==> s[k].number > number
  {
    if s == [] || s[0].number > number then 0 else 1 + FirstLarger(s[1..], number)
  }

  /** Where mg_coap_add_option puts an option: last if it is not below the last, else before the first larger one. */
  function InsertAt(s: seq<Opt>, number: nat): (k: nat)
    ensures k <= |s|
  {
    if s == [] || s[|s| - 1].number <= number then |s| else FirstLarger(s, number)
  }

  function Insert(s: seq<Opt>, o: Opt): seq<Opt> {
    var k := InsertAt(s, o.number);
    s[..k] + [o] + s[k..]
  }

  /** An option lands behind every option with an equal or smaller number and before every larger one. */
  lemma InsertStable(s: seq<Opt>, o: Opt)
    requires Sorted(s)
    ensures var k := InsertAt(s, o.number);
            forall i :: 0 <= i < |s| ==> (s[i].number <= o.number <==> i < k)
  {
  }

  /** Insertion keeps the options sorted. */
  lemma InsertSorted(s: seq<Opt>, o: Opt)
    requires Sorted(s)
    ensures Sorted(Insert(s, o))
  {
    var k, r := InsertAt(s, o.number), Insert(s, o);
    InsertStable(s, o);
    hide InsertAt;
    forall i, j | 0 <= i <= j < |r| ensures r[i].number <= r[j].number {
      var x := if i <= k then i else i - 1;
      var y := if j < k then j else j - 1;
      if i != k && j != k { assert s[x].number <= s[y].number; }
    }
  }

  /** Insertion adds just the one option. */
  lemma InsertAdds(s: seq<Opt>, o: Opt)
    ensures multiset(Insert(s, o)) == multiset(s) + multiset{o}
  {
    var k := InsertAt(s, o.number);
    assert s == s[..k] + s[k..];
  }

  lemma SortedTail(s: seq<Opt>)
    requires Sorted(s) && s != []
    ensures Sorted(s[1..]) && (|s| > 1 ==> s[0].number <= s[1].number)
  {
  }

  // ----- the option header

  function ExtSize(v: nat): nat {
    if 13 <= v <= 0xFF + 13 then 1 else if 0xFF + 13 < v <= MAX_EXT then 2 else 0
  }

  function ExtBase(v: nat): (b: nat)
    ensures b <= 14
  {
    if v < 13 then v else if v <= 0xFF + 13 then 13 else if v <= MAX_EXT then 14 else 0
  }

  function ExtBytes(v: nat): (s: seq<byte>)
    ensures |s| == ExtSize(v)
  {
    if v < 13 then []
    else if v <= 0xFF + 13 then [v - 13]
    else if v <= MAX_EXT then [(v - 269) / 256, (v - 269) % 256]
    else []
  }

  function OptionBytes(delta: nat, value: seq<byte>): (s: seq<byte>)
    ensures |s| == 1 + ExtSize(delta) + ExtSize(|value|) + |value|
  {
    [ExtBase(delta) * 16 + ExtBase(|value|)] + ExtBytes(delta) + ExtBytes(|value|) + value
  }

  /** Options as differences from the previous number. */
  function OptionsBytes(s: seq<Opt>, prev: nat): seq<byte>
    requires Sorted(s) && (s != [] ==> prev <= s[0].number)
  {
    if s == [] then []
    else OptionBytes(s[0].number - prev, s[0].value) + OptionsBytes(s[1..], s[0].number)
  }

  // ----- composing

  datatype Composed = Rejected(field: Field) | Packet(bytes: seq<byte>)

  /** The option check: an order violation, an over-long value or an over-long step. */
  predicate OptionsOk(s: seq<Opt>, prev: nat) {
    s == [] ||
    (&& (|s| > 1 ==> s[0].number <= s[1].number)
     && |s[0].value| <= MAX_EXT
     && s[0].number - prev <= MAX_EXT
     && OptionsOk(s[1..], s[0].number))
  }

  lemma {:induction false} OptionsOkSorted(s: seq<Opt>, prev: nat)
    requires OptionsOk(s, prev)
    ensures Sorted(s)
  {
    if s != [] {
      OptionsOkSorted(s[1..], s[0].number);
      assert forall i :: 0 < i < |s| ==> s[i] == s[1..][i - 1];
    }
  }

  function Rejection(m: Message): (r: seq<Field>)
    ensures |r| <= 1
  {
    if m.msgType > 3 then [TypeField]
    else if |m.token| > 8 then [TokenField]
    else if m.codeClass > 7 then [CodeClassField]
    else if m.codeDetail > 31 then [CodeDetailField]
    else if !OptionsOk(m.options, 0) then [OptionsField]
    else []
  }

  function HeaderBytes(m: Message): (s: seq<byte>)
    requires m.msgType <= 3 && |m.token| <= 8 && m.codeClass <= 7 && m.codeDetail <= 31 && m.msgId < 0x1_0000
    ensures |s| == 4
  {
    [64 + m.msgType * 16 + |m.token|, m.codeClass * 32 + m.codeDetail, m.msgId / 256, m.msgId % 256]
  }

  function PayloadBytes(payload: seq<byte>): seq<byte> {
    if payload == [] then [] else [0xFF] + payload
  }

  function Compose(m: Message): Composed
    requires m.msgId < 0x1_0000
  {
    if Rejection(m) != [] then Rejected(Rejection(m)[0])
    else
      OptionsOkSorted(m.options, 0);
      Packet(HeaderBytes(m) + (m.token + (OptionsBytes(m.options, 0) + PayloadBytes(m.payload))))
  }

  // ----- parsing

  datatype Error = NotEnoughData | FormatError | Ignore

  /** Which of the optional fields the flags of a parsed message announce. */
  datatype Present = Present(token: bool, options: bool, payload: bool)

  datatype Parsed = Failed(error: Error) | Parsed(message: Message, present: Present)

  /** An extended delta or length: its value in 16 bits and what follows it. */
  datatype Ext = NoExt | Ext(value: nat, rest: seq<byte>)

  function GetExt(nibble: nat, s: seq<byte>): (r: Ext)
    ensures r.Ext? ==> |r.rest| <= |s| && (nibble < 16 ==> r.value < 0x1_0000)
  {
    if nibble == 13 then (if |s| < 1 then NoExt else Ext(s[0] as int + 13, s[1..]))
    else if nibble == 14 then (if |s| < 2 then NoExt else Ext((s[0] as int * 256 + s[1] + 269) % 0x1_0000, s[2..]))
    else Ext(nibble, s)
  }

  datatype OptionsParsed = Bad(error: Error) | Good(options: seq<Opt>, rest: seq<byte>)

  /** Options up to the payload marker or the end; prev is the previous option number. */
  function ParseOptions(s: seq<byte>, prev: nat, acc: seq<Opt>): OptionsParsed
    decreases |s|
  {
    if s == [] || s[0] == 0xFF then Good(acc, s)
    else if s[0] / 16 == 15 || s[0] % 16 == 15 then Bad(FormatError)
    else
      var delta := GetExt(s[0] / 16, s[1..]);
      if delta.NoExt? then Bad(NotEnoughData)
      else
        var len := GetExt(s[0] % 16, delta.rest);
        if len.NoExt? || len.value > |len.rest| then Bad(NotEnoughData)
        else
          var number := (delta.value + prev) % 0x1_0000;
          ParseOptions(len.rest[len.value..], number, Insert(acc, Opt(number, len.rest[..len.value])))
  }

  function Parse(p: seq<byte>): Parsed {
    if |p| < 4 then Failed(NotEnoughData)
    else if p[0] / 64 != 1 then Failed(Ignore)
    else if p[0] % 16 > 8 then Failed(FormatError)
    else if |p| < 4 + p[0] % 16 then Failed(NotEnoughData)
    else
      var token := p[4..4 + p[0] % 16];
      var rest := p[4 + p[0] % 16..];
      ParseBody(Message(p[0] / 16 % 4, p[1] / 32, p[1] % 32, p[2] as int * 256 + p[3], token, [], []), rest)
  }

  /** Options and payload. */
  function ParseBody(m: Message, s: seq<byte>): Parsed {
    if s == [] then Parsed(m, Present(m.token != [], false, false))
    else
      match ParseOptions(s, 0, [])
      case Bad(e) => Failed(e)
      case Good(options, tail) =>
        var payload := if tail == [] then [] else tail[1..];
        Parsed(m.(options := options, payload := payload), Present(m.token != [], true, payload != []))
  }

  // ----- compose, then parse

  lemma ExtInverse(v: nat, s: seq<byte>)
    requires v < 0x1_0000
    ensures GetExt(ExtBase(v), ExtBytes(v) + s) == Ext(v, s)
  {
    var t := ExtBytes(v) + s;
    if v < 13 {
      assert t == s;
    } else if v <= 0xFF + 13 {
      assert t[1..] == s;
    } else {
      assert t[2..] == s;
    }
  }

  /** Numbers and lengths that the parser's 16-bit variables can hold. */
  predicate Narrow(s: seq<Opt>) {
    forall i :: 0 <= i < |s| ==> s[i].number < 0x1_0000 && |s[i].value| < 0x1_0000
  }

  /** One composed option parses back, whatever follows. */
  lemma ParseOption(o: Opt, prev: nat, acc: seq<Opt>, t: seq<byte>)
    requires prev <= o.number < 0x1_0000 && |o.value| < 0x1_0000
    requires acc != [] ==> acc[|acc| - 1].number <= o.number
    ensures ParseOptions(OptionBytes(o.number - prev, o.value) + t, prev, acc) == ParseOptions(t, o.number, acc + [o])
  {
    hide GetExt, ExtBase, ExtBytes, ExtSize, Insert;
    var delta, len := o.number - prev, |o.value|;
    var s := OptionBytes(delta, o.value) + t;
    Nibbles(ExtBase(delta), ExtBase(len));
    var c, b, a := o.value + t, ExtBytes(len) + (o.value + t), ExtBytes(delta) + (ExtBytes(len) + (o.value + t));
    assert s == [s[0]] + a;
    assert s[1..] == a;
    ExtInverse(delta, b);
    ExtInverse(len, c);
    assert c[..len] == o.value && c[len..] == t;
    InsertLast(acc, o);
  }

  lemma Nibbles(a: nat, b: nat)
    requires a <= 14 && b <= 14
    ensures (a * 16 + b) / 16 == a && (a * 16 + b) % 16 == b && a * 16 + b < 0xFF
  {
  }

  lemma InsertLast(acc: seq<Opt>, o: Opt)
    requires acc != [] ==> acc[|acc| - 1].number <= o.number
    ensures Insert(acc, o) == acc + [o]
  {
    assert acc[..|acc|] + [o] + acc[|acc|..] == acc + [o];
  }

  lemma ParseEnd(t: seq<byte>, prev: nat, acc: seq<Opt>)
    requires t == [] || t[0] == 0xFF
    ensures ParseOptions(t, prev, acc) == Good(acc, t)
  {
  }

  lemma OptionsBytesStep(s: seq<Opt>, prev: nat, t: seq<byte>)
    requires Sorted(s) && s != [] && prev <= s[0].number
    ensures Sorted(s[1..]) && (|s| > 1 ==> s[0].number <= s[1].number)
    ensures OptionsBytes(s, prev) + t
         == OptionBytes(s[0].number - prev, s[0].value) + (OptionsBytes(s[1..], s[0].number) + t)
  {
    hide OptionBytes, Sorted;
    SortedTail(s);
  }

  lemma Shift(acc: seq<Opt>, s: seq<Opt>)
    requires s != []
    ensures (acc + [s[0]]) + s[1..] == acc + s
  {
  }

  lemma {:induction false} ParseComposedOptions(s: seq<Opt>, prev: nat, acc: seq<Opt>, t: seq<byte>)
    requires Sorted(s) && Narrow(s) && (s != [] ==> prev <= s[0].number)
    requires acc != [] ==> acc[|acc| - 1].number <= prev
    requires t == [] || t[0] == 0xFF
    ensures ParseOptions(OptionsBytes(s, prev) + t, prev, acc) == Good(acc + s, t)
    decreases |s|
  {
    hide OptionBytes, ParseOptions, Sorted;
    if s == [] {
      assert OptionsBytes(s, prev) + t == t;
      assert acc + s == acc;
      ParseEnd(t, prev, acc);
    } else {
      hide OptionsBytes;
      OptionsBytesStep(s, prev, t);
      Shift(acc, s);
      ParseOption(s[0], prev, acc, OptionsBytes(s[1..], s[0].number) + t);
      assert Narrow(s[1..]);
      ParseComposedOptions(s[1..], s[0].number, acc + [s[0]], t);
    }
  }

  /** What the parser announces for a message that was composed. */
  function Announced(m: Message): Present {
    Present(m.token != [], m.options != [] || m.payload != [], m.payload != [])
  }

  lemma ComposeParseNarrow(m: Message)
    requires m.msgId < 0x1_0000 && Compose(m).Packet? && Narrow(m.options)
    ensures Parse(Compose(m).bytes) == Parsed(m, Announced(m))
  {
    hide OptionsBytes, ParseOptions, PayloadBytes, HeaderBytes, ParseBody;
    OptionsOkSorted(m.options, 0);
    var rest := OptionsBytes(m.options, 0) + PayloadBytes(m.payload);
    ParseComposedBody(m);
    ParseHeader(m, rest);
  }

  lemma ParseHeader(m: Message, rest: seq<byte>)
    requires m.msgType <= 3 && |m.token| <= 8 && m.codeClass <= 7 && m.codeDetail <= 31 && m.msgId < 0x1_0000
    ensures Parse(HeaderBytes(m) + (m.token + rest)) == ParseBody(m.(options := [], payload := []), rest)
  {
    hide HeaderBytes, ParseBody;
    var h := HeaderBytes(m);
    var p := h + (m.token + rest);
    HeaderInverse(m);
    assert p[4..4 + |m.token|] == m.token && p[4 + |m.token|..] == rest;
    assert p[0] == h[0] && p[1] == h[1] && p[2] == h[2] && p[3] == h[3];
  }

  lemma ParseComposedBody(m: Message)
    requires Sorted(m.options) && Narrow(m.options)
    ensures ParseBody(m.(options := [], payload := []), OptionsBytes(m.options, 0) + PayloadBytes(m.payload)) == Parsed(m, Announced(m))
  {
    hide OptionsBytes, ParseOptions, PayloadBytes, Sorted, Narrow;
    var tail := PayloadBytes(m.payload);
    PayloadMarked(m.payload);
    ParseComposedOptions(m.options, 0, [], tail);
    assert [] + m.options == m.options;
    NoOptionsNoBytes(m.options, m.payload);
  }

  lemma HeaderInverse(m: Message)
    requires m.msgType <= 3 && |m.token| <= 8 && m.codeClass <= 7 && m.codeDetail <= 31 && m.msgId < 0x1_0000
    ensures var h := HeaderBytes(m);
            && h[0] / 64 == 1 && h[0] % 16 == |m.token| && h[0] / 16 % 4 == m.msgType
            && h[1] / 32 == m.codeClass && h[1] % 32 == m.codeDetail && h[2] as int * 256 + h[3] == m.msgId
  {
  }

  lemma PayloadMarked(payload: seq<byte>)
    ensures var t := PayloadBytes(payload);
            (t == [] || t[0] == 0xFF) && payload == if t == [] then [] else t[1..]
  {
  }

  lemma NoOptionsNoBytes(s: seq<Opt>, payload: seq<byte>)
    requires Sorted(s)
    ensures OptionsBytes(s, 0) + PayloadBytes(payload) == [] <==> s == [] && payload == []
  {
  }

  lemma InsertNarrow(acc: seq<Opt>, o: Opt)
    requires Narrow(acc) && o.number < 0x1_0000 && |o.value| < 0x1_0000
    ensures Narrow(Insert(acc, o))
  {
    hide InsertAt;
  }

  /** Everything the parser returns fits its 16-bit variables. */
  lemma {:induction false} ParsedNarrow(s: seq<byte>, prev: nat, acc: seq<Opt>)
    requires Narrow(acc)
    ensures ParseOptions(s, prev, acc).Good? ==> Narrow(ParseOptions(s, prev, acc).options)
    decreases |s|
  {
    hide GetExt, Insert, Narrow;
    if s != [] && s[0] != 0xFF && s[0] / 16 != 15 && s[0] % 16 != 15 {
      var delta := GetExt(s[0] / 16, s[1..]);
      if delta.Ext? {
        var len := GetExt(s[0] % 16, delta.rest);
        if len.Ext? && len.value <= |len.rest| {
          var number := (delta.value + prev) % 0x1_0000;
          InsertNarrow(acc, Opt(number, len.rest[..len.value]));
          ParsedNarrow(len.rest[len.value..], number, Insert(acc, Opt(number, len.rest[..len.value])));
        }
      }
    }
  }

  /**
   A message that passes the size check parses back to itself exactly when every option
   number and value length is below 2^16.
   */
  lemma ComposeParse(m: Message)
    requires m.msgId < 0x1_0000 && Compose(m).Packet?
    ensures Parse(Compose(m).bytes) == Parsed(m, Announced(m)) <==> Narrow(m.options)
  {
    if Narrow(m.options) {
      ComposeParseNarrow(m);
    } else {
      hide Compose, ParseOptions;
      var p := Compose(m).bytes;
      if |p| >= 4 && |p| >= 4 + p[0] % 16 {
        ParsedNarrow(p[4 + p[0] % 16..], 0, []);
      }
    }
  }

  // ----- parse, then compose

  /** An extended field before it is cut to 16 bits. */
  function RawExt(nibble: nat, s: seq<byte>): nat
    requires GetExt(nibble, s).Ext?
  {
    if nibble == 13 then s[0] as int + 13
    else if nibble == 14 then s[0] as int * 256 + s[1] + 269
    else nibble
  }

  /** No delta, length or option number of the packet needs more than 16 bits. */
  predicate NoOverflow(s: seq<byte>, prev: nat)
    decreases |s|
  {
    s == [] || s[0] == 0xFF || s[0] / 16 == 15 || s[0] % 16 == 15 ||
    var delta := GetExt(s[0] / 16, s[1..]);
    delta.NoExt? ||
    var len := GetExt(s[0] % 16, delta.rest);
    len.NoExt? || len.value > |len.rest| ||
    (&& RawExt(s[0] / 16, s[1..]) + prev < 0x1_0000
     && RawExt(s[0] % 16, delta.rest) < 0x1_0000
     && NoOverflow(len.rest[len.value..], delta.value + prev))
  }

  lemma ExtUnique(nibble: nat, s: seq<byte>)
    requires nibble < 15 && GetExt(nibble, s).Ext? && RawExt(nibble, s) < 0x1_0000
    ensures var e := GetExt(nibble, s);
            e.value == RawExt(nibble, s) && ExtBase(e.value) == nibble && ExtBytes(e.value) + e.rest == s
  {
    var e := GetExt(nibble, s);
    if nibble == 13 {
      assert [s[0]] + s[1..] == s;
    } else if nibble == 14 {
      assert [s[0], s[1]] + s[2..] == s;
    } else {
      assert [] + s == s;
    }
  }

  /** An option that was parsed without overflow has exactly one encoding. */
  lemma OptionUnique(s: seq<byte>, prev: nat)
    requires s != [] && s[0] / 16 < 15 && s[0] % 16 < 15
    requires var delta := GetExt(s[0] / 16, s[1..]);
             && delta.Ext? && RawExt(s[0] / 16, s[1..]) < 0x1_0000
             && GetExt(s[0] % 16, delta.rest).Ext? && RawExt(s[0] % 16, delta.rest) < 0x1_0000
             && GetExt(s[0] % 16, delta.rest).value <= |GetExt(s[0] % 16, delta.rest).rest|
    ensures var delta := GetExt(s[0] / 16, s[1..]);
            var len := GetExt(s[0] % 16, delta.rest);
            OptionBytes(delta.value, len.rest[..len.value]) + len.rest[len.value..] == s
  {
    hide GetExt, RawExt, ExtBase, ExtBytes, ExtSize;
    var delta := GetExt(s[0] / 16, s[1..]);
    var len := GetExt(s[0] % 16, delta.rest);
    ExtUnique(s[0] / 16, s[1..]);
    ExtUnique(s[0] % 16, delta.rest);
    var value, more := len.rest[..len.value], len.rest[len.value..];
    assert value + more == len.rest;
    assert s == [s[0]] + (ExtBytes(delta.value) + (ExtBytes(len.value) + (value + more)));
  }

  predicate Follows(s: seq<Opt>, prev: nat) {
    Sorted(s) && Narrow(s) && (s != [] ==> prev <= s[0].number)
  }

  lemma FollowsCons(o: Opt, s: seq<Opt>, prev: nat)
    requires prev <= o.number < 0x1_0000 && |o.value| < 0x1_0000 && Follows(s, o.number)
    ensures Follows([o] + s, prev)
  {
    var r := [o] + s;
    assert forall i :: 0 < i < |r| ==> r[i] == s[i - 1];
  }

  /** An option can be read at the start of the bytes. */
  predicate HasOption(s: seq<byte>) {
    && s != [] && s[0] != 0xFF && s[0] / 16 != 15 && s[0] % 16 != 15
    && var delta := GetExt(s[0] / 16, s[1..]);
       delta.Ext? && var len := GetExt(s[0] % 16, delta.rest); len.Ext? && len.value <= |len.rest|
  }

  lemma RoundParts(s: seq<byte>, prev: nat, acc: seq<Opt>)
    requires ParseOptions(s, prev, acc).Good? && s != [] && s[0] != 0xFF
    ensures HasOption(s)
    ensures var delta := GetExt(s[0] / 16, s[1..]);
            var len := GetExt(s[0] % 16, delta.rest);
            var number := (delta.value + prev) % 0x1_0000;
            ParseOptions(s, prev, acc) == ParseOptions(len.rest[len.value..], number, Insert(acc, Opt(number, len.rest[..len.value])))
  {
    hide GetExt, Insert;
  }

  lemma OverflowParts(s: seq<byte>, prev: nat)
    requires NoOverflow(s, prev) && HasOption(s)
    ensures var delta := GetExt(s[0] / 16, s[1..]);
            var len := GetExt(s[0] % 16, delta.rest);
            && RawExt(s[0] / 16, s[1..]) + prev < 0x1_0000
            && RawExt(s[0] % 16, delta.rest) < 0x1_0000
            && NoOverflow(len.rest[len.value..], delta.value + prev)
  {
    hide GetExt;
  }

  /** One round of option parsing without overflow: the option, and the bytes after it. */
  lemma ParseRound(s: seq<byte>, prev: nat, acc: seq<Opt>) returns (o: Opt, more: seq<byte>)
    requires ParseOptions(s, prev, acc).Good? && NoOverflow(s, prev) && s != [] && s[0] != 0xFF
    requires acc != [] ==> acc[|acc| - 1].number <= prev
    ensures prev <= o.number < 0x1_0000 && |o.value| < 0x1_0000 && |more| < |s|
    ensures ParseOptions(s, prev, acc) == ParseOptions(more, o.number, acc + [o])
    ensures NoOverflow(more, o.number)
    ensures OptionBytes(o.number - prev, o.value) + more == s
  {
    hide GetExt, RawExt, ParseOptions, NoOverflow, OptionBytes, Insert, ExtBase, ExtBytes;
    RoundParts(s, prev, acc);
    OverflowParts(s, prev);
    var delta := GetExt(s[0] / 16, s[1..]);
    var len := GetExt(s[0] % 16, delta.rest);
    ExtUnique(s[0] / 16, s[1..]);
    ExtUnique(s[0] % 16, delta.rest);
    OptionUnique(s, prev);
    o, more := Opt(delta.value + prev, len.rest[..len.value]), len.rest[len.value..];
    InsertLast(acc, o);
  }

  /** The options a packet parses to recompose to the bytes they were parsed from. */
  lemma {:induction false} OptionsUnique(s: seq<byte>, prev: nat, acc: seq<Opt>) returns (opts: seq<Opt>)
    requires ParseOptions(s, prev, acc).Good? && NoOverflow(s, prev)
    requires acc != [] ==> acc[|acc| - 1].number <= prev
    ensures var r := ParseOptions(s, prev, acc);
            && r.options == acc + opts && Follows(opts, prev) && OptionsBytes(opts, prev) + r.rest == s
            && (r.rest == [] || r.rest[0] == 0xFF)
    decreases |s|
  {
    hide ParseOptions, NoOverflow, OptionBytes, Follows, OptionsBytes;
    if s == [] || s[0] == 0xFF {
      opts := [];
      ParseEnd(s, prev, acc);
      NoOptions(prev);
      assert acc + [] == acc && [] + s == s;
    } else {
      var o, rest := ParseRound(s, prev, acc);
      var more := OptionsUnique(rest, o.number, acc + [o]);
      FollowsCons(o, more, prev);
      opts := [o] + more;
      OptionsUniqueStep(s, prev, o, more, ParseOptions(s, prev, acc).rest);
      assert (acc + [o]) + more == acc + opts;
    }
  }

  lemma NoOptions(prev: nat)
    ensures Follows([], prev) && OptionsBytes([], prev) == []
  {
  }

  lemma OptionsUniqueStep(s: seq<byte>, prev: nat, o: Opt, more: seq<Opt>, t: seq<byte>)
    requires prev <= o.number && Follows([o] + more, prev) && Follows(more, o.number)
    requires OptionBytes(o.number - prev, o.value) + (OptionsBytes(more, o.number) + t) == s
    ensures OptionsBytes([o] + more, prev) + t == s
  {
    hide OptionBytes;
    assert ([o] + more)[1..] == more && ([o] + more)[0] == o;
    OptionsBytesStep([o] + more, prev, t);
  }

  lemma {:induction false} NarrowOk(s: seq<Opt>, prev: nat)
    requires Follows(s, prev)
    ensures OptionsOk(s, prev)
  {
    if s != [] {
      SortedTail(s);
      assert Narrow(s[1..]);
      NarrowOk(s[1..], s[0].number);
    }
  }

  /** The payload marker is the last byte of the packet. */
  predicate BareMarker(p: seq<byte>)
    requires Parse(p).Parsed?
  {
    var s := p[4 + p[0] % 16..];
    s != [] && ParseOptions(s, 0, []).rest == [0xFF]
  }

  lemma HeaderUnique(p: seq<byte>, m: Message)
    requires |p| >= 4 && p[0] / 64 == 1 && p[0] % 16 <= 8 && |p| >= 4 + p[0] % 16
    requires m.msgType == p[0] / 16 % 4 && m.codeClass == p[1] / 32 && m.codeDetail == p[1] % 32
    requires m.msgId == p[2] as int * 256 + p[3] && m.token == p[4..4 + p[0] % 16]
    ensures m.msgType <= 3 && m.codeClass <= 7 && m.codeDetail <= 31 && m.msgId < 0x1_0000
    ensures HeaderBytes(m) + (m.token + p[4 + p[0] % 16..]) == p
  {
    assert HeaderBytes(m) == p[..4];
    assert m.token + p[4 + p[0] % 16..] == p[4..];
  }

  lemma FollowsSorted(s: seq<Opt>, prev: nat)
    requires Follows(s, prev)
    ensures Sorted(s) && (s != [] ==> prev <= s[0].number)
  {
  }

  lemma MarkerUnique(b: seq<byte>, t: seq<byte>)
    requires t == [] || t[0] == 0xFF
    ensures b + PayloadBytes(if t == [] then [] else t[1..]) == if t == [0xFF] then (b + t)[..|b + t| - 1] else b + t
  {
    if t != [] {
      assert t == [0xFF] + t[1..];
    }
    assert b + [] == b;
  }

  lemma BodyUnique(m: Message, s: seq<byte>)
    requires m.options == [] && m.payload == [] && ParseBody(m, s).Parsed? && NoOverflow(s, 0)
    ensures var n := ParseBody(m, s).message;
            && n == m.(options := n.options, payload := n.payload) && Follows(n.options, 0)
            && OptionsBytes(n.options, 0) + PayloadBytes(n.payload)
               == if s != [] && ParseOptions(s, 0, []).rest == [0xFF] then s[..|s| - 1] else s
  {
    hide NoOverflow, ParseOptions, OptionsBytes, Follows, PayloadBytes;
    if s == [] {
      NoOptions(0);
      MarkerUnique([], []);
    } else {
      OptionsAndMarker(s);
    }
  }

  lemma OptionsAndMarker(s: seq<byte>)
    requires ParseOptions(s, 0, []).Good? && NoOverflow(s, 0)
    ensures var r := ParseOptions(s, 0, []);
            && Follows(r.options, 0)
            && OptionsBytes(r.options, 0) + PayloadBytes(if r.rest == [] then [] else r.rest[1..])
               == if r.rest == [0xFF] then s[..|s| - 1] else s
  {
    hide NoOverflow, ParseOptions, OptionsBytes, Follows, PayloadBytes;
    var opts := OptionsUnique(s, 0, []);
    assert [] + opts == opts;
    FollowsSorted(opts, 0);
    MarkerUnique(OptionsBytes(opts, 0), ParseOptions(s, 0, []).rest);
  }

  /** Without overflow, a packet recomposes to its bytes, less a bare payload marker. */
  lemma RecomposeWithoutOverflow(p: seq<byte>)
    requires Parse(p).Parsed? && NoOverflow(p[4 + p[0] % 16..], 0)
    ensures Parse(p).message.msgId < 0x1_0000
    ensures Compose(Parse(p).message) == Packet(if BareMarker(p) then p[..|p| - 1] else p)
  {
    hide HeaderBytes, NoOverflow, ParseOptions, OptionsBytes, OptionsOk, Follows, ParseBody, PayloadBytes;
    var s := p[4 + p[0] % 16..];
    var empty := Message(p[0] / 16 % 4, p[1] / 32, p[1] % 32, p[2] as int * 256 + p[3], p[4..4 + p[0] % 16], [], []);
    assert Parse(p) == ParseBody(empty, s);
    var m := Parse(p).message;
    BodyUnique(empty, s);
    NarrowOk(m.options, 0);
    HeaderUnique(p, m);
    if BareMarker(p) {
      assert HeaderBytes(m) + (m.token + s[..|s| - 1]) == (HeaderBytes(m) + (m.token + s))[..|p| - 1];
    }
  }

  // ----- composed bytes never overflow

  lemma RawExtInverse(v: nat, s: seq<byte>)
    requires v < 0x1_0000
    ensures GetExt(ExtBase(v), ExtBytes(v) + s) == Ext(v, s) && RawExt(ExtBase(v), ExtBytes(v) + s) == v
  {
    ExtInverse(v, s);
  }

  lemma NoOverflowOption(o: Opt, prev: nat, t: seq<byte>)
    requires prev <= o.number < 0x1_0000 && |o.value| < 0x1_0000 && NoOverflow(t, o.number)
    ensures NoOverflow(OptionBytes(o.number - prev, o.value) + t, prev)
  {
    hide GetExt, ExtBase, ExtBytes, ExtSize, RawExt;
    var delta, len := o.number - prev, |o.value|;
    var s := OptionBytes(delta, o.value) + t;
    Nibbles(ExtBase(delta), ExtBase(len));
    var c, b, a := o.value + t, ExtBytes(len) + (o.value + t), ExtBytes(delta) + (ExtBytes(len) + (o.value + t));
    assert s == [s[0]] + a;
    assert s[1..] == a;
    RawExtInverse(delta, b);
    RawExtInverse(len, c);
    assert c[len..] == t;
  }

  lemma {:induction false} NoOverflowComposed(s: seq<Opt>, prev: nat, t: seq<byte>)
    requires Sorted(s) && Narrow(s) && (s != [] ==> prev <= s[0].number)
    requires t == [] || t[0] == 0xFF
    ensures NoOverflow(OptionsBytes(s, prev) + t, prev)
    decreases |s|
  {
    hide OptionBytes, Sorted;
    if s == [] {
      assert OptionsBytes(s, prev) + t == t;
    } else {
      hide OptionsBytes, NoOverflow;
      OptionsBytesStep(s, prev, t);
      assert Narrow(s[1..]);
      NoOverflowComposed(s[1..], s[0].number, t);
      NoOverflowOption(s[0], prev, OptionsBytes(s[1..], s[0].number) + t);
    }
  }

  /** A packet that recomposes to itself is made of composed options and payload. */
  lemma RecomposedBody(p: seq<byte>, m: Message)
    requires m.msgId < 0x1_0000 && Compose(m) == Packet(p)
    ensures Sorted(m.options) && |p| >= 4 && p[0] % 16 == |m.token| && |p| >= 4 + |m.token|
    ensures p[4 + p[0] % 16..] == OptionsBytes(m.options, 0) + PayloadBytes(m.payload)
  {
    hide HeaderBytes, OptionsBytes, PayloadBytes;
    OptionsOkSorted(m.options, 0);
    HeaderInverse(m);
    var h, rest := HeaderBytes(m), OptionsBytes(m.options, 0) + PayloadBytes(m.payload);
    assert p == h + (m.token + rest);
    assert p[0] == h[0];
    assert p[4 + |m.token|..] == rest;
  }

  lemma MessageNarrow(p: seq<byte>)
    requires Parse(p).Parsed?
    ensures Parse(p).message.msgId < 0x1_0000 && Narrow(Parse(p).message.options)
  {
    hide ParseOptions;
    ParsedNarrow(p[4 + p[0] % 16..], 0, []);
  }

  lemma RecomposeOverflows(p: seq<byte>)
    requires Parse(p).Parsed?
    ensures Parse(p).message.msgId < 0x1_0000
    ensures Compose(Parse(p).message) == Packet(p) ==> NoOverflow(p[4 + p[0] % 16..], 0)
  {
    hide Compose, ParseBody, NoOverflow, OptionsBytes, PayloadBytes, Narrow;
    var m := Parse(p).message;
    MessageNarrow(p);
    if Compose(m) == Packet(p) {
      RecomposedBody(p, m);
      PayloadMarked(m.payload);
      NoOverflowComposed(m.options, 0, PayloadBytes(m.payload));
    }
  }

  /**
   A packet that parses recomposes to the same bytes exactly when none of its deltas,
   lengths and option numbers overflows the parser's 16-bit variables and it does not end
   in a bare payload marker.
   */
  lemma ParseCompose(p: seq<byte>)
    requires Parse(p).Parsed?
    ensures Parse(p).message.msgId < 0x1_0000
    ensures Compose(Parse(p).message) == Packet(p) <==> NoOverflow(p[4 + p[0] % 16..], 0) && !BareMarker(p)
  {
    hide Compose, ParseBody, NoOverflow, ParseOptions;
    RecomposeOverflows(p);
    if NoOverflow(p[4 + p[0] % 16..], 0) {
      RecomposeWithoutOverflow(p);
      assert |p[..|p| - 1]| < |p|;
    }
  }

  const WRAPPING: seq<byte> := [0x40, 1, 0, 0, 0xE0, 0xFF, 0xFF]
  const WRAPPED := Message(0, 0, 1, 0, [], [Opt(268, [])], [])

  lemma WrappingDelta()
    ensures GetExt(14, [0xFF, 0xFF]) == Ext(268, []) && GetExt(0, []) == Ext(0, [])
  {
  }

  lemma WrappingOption()
    ensures ParseOptions([0xE0, 0xFF, 0xFF], 0, []) == Good([Opt(268, [])], [])
  {
    hide Insert, GetExt;
    var s: seq<byte> := [0xE0, 0xFF, 0xFF];
    var o := Opt(268, []);
    assert s[1..] == [0xFF, 0xFF];
    WrappingDelta();
    InsertLast([], o);
    ParseEnd([], 268, [] + [o]);
  }

  lemma WrappingParses()
    ensures Parse(WRAPPING) == Parsed(WRAPPED, Present(false, true, false))
  {
    hide ParseOptions;
    assert WRAPPING[4..4] == [] && WRAPPING[4..] == [0xE0, 0xFF, 0xFF];
    WrappingOption();
  }

  lemma WrappedBytes()
    ensures var o := Opt(268, []); OptionsOk([o], 0) && Sorted([o]) && OptionsBytes([o], 0) == [0xD0, 0xFF]
  {
    var o := Opt(268, []);
    assert [o][1..] == [];
    assert OptionBytes(268, []) == [0xD0, 0xFF];
    assert OptionsBytes([o], 0) == OptionBytes(268, []) + [];
  }

  /** A delta of 2^16 + 268 wraps to 268, which is written with one extension byte. */
  lemma OverflowRecomposes()
    ensures Parse(WRAPPING).Parsed? && Compose(Parse(WRAPPING).message) == Packet([0x40, 1, 0, 0, 0xD0, 0xFF])
  {
    hide Parse, OptionsBytes, OptionsOk;
    WrappingParses();
    WrappedBytes();
    assert HeaderBytes(WRAPPED) + ([] + ([0xD0, 0xFF] + [])) == [0x40, 1, 0, 0, 0xD0, 0xFF];
  }
}
