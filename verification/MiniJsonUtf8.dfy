/**
 Strings minijson's reader delivers are well-formed UTF-8 whenever the document is: raw
 bytes are copied sequence by sequence and every escape becomes one scalar value.
 */
module MiniJsonUtf8 {
  import opened JsonString
  import opened MiniJson
  import opened MiniJsonEvents

  // ----- well-formed UTF-8, table 3-7 of the Unicode Standard

  predicate Between(c: char, lo: nat, hi: nat) {
    lo <= c as int <= hi
  }

  predicate IsTrail(c: char) {
    Between(c, 0x80, 0xBF)
  }

  /** Second bytes allowed after a lead byte. */
  predicate SecondOk(lead: char, c: char) {
    if lead as int == 0xE0 then Between(c, 0xA0, 0xBF)
    else if lead as int == 0xED then Between(c, 0x80, 0x9F)
    else if lead as int == 0xF0 then Between(c, 0x90, 0xBF)
    else if lead as int == 0xF4 then Between(c, 0x80, 0x8F)
    else IsTrail(c)
  }

  /** Bytes a lead byte calls for, 0 when it is none. */
  function LeadLength(c: char): nat {
    if Between(c, 0, 0x7F) then 1
    else if Between(c, 0xC2, 0xDF) then 2
    else if Between(c, 0xE0, 0xEF) then 3
    else if Between(c, 0xF0, 0xF4) then 4
    else 0
  }

  /** A string is exactly one well-formed sequence. */
  predicate IsSequence(a: string) {
    && 1 <= |a| <= 4
    && LeadLength(a[0]) == |a|
    && (|a| >= 2 ==> SecondOk(a[0], a[1]))
    && (|a| >= 3 ==> IsTrail(a[2]))
    && (|a| >= 4 ==> IsTrail(a[3]))
  }

  predicate ValidUtf8(s: string) {
    s == "" || (var n := LeadLength(s[0]); 0 < n <= |s| && IsSequence(s[..n]) && ValidUtf8(s[n..]))
  }

  /** The scalar value of a sequence. */
  function ScalarOf(a: string): nat
    requires IsSequence(a)
  {
    if |a| == 1 then a[0] as int
    else if |a| == 2 then (a[0] as int - 0xC0) * 64 + (a[1] as int - 0x80)
    else if |a| == 3 then (a[0] as int - 0xE0) * 0x1000 + (a[1] as int - 0x80) * 64 + (a[2] as int - 0x80)
    else (a[0] as int - 0xF0) * 0x40000 + (a[1] as int - 0x80) * 0x1000 + (a[2] as int - 0x80) * 64 + (a[3] as int - 0x80)
  }

  lemma Div64(n: nat)
    ensures n / 0x1000 == n / 64 / 64 && n / 0x40000 == n / 64 / 64 / 64
    ensures n == n / 64 * 64 + n % 64
  {
  }

  lemma EncodesTwo(cp: nat)
    requires 0x80 <= cp <= 0x7FF
    ensures IsSequence(Utf8(cp)) && ScalarOf(Utf8(cp)) == cp
  {
  }

  lemma EncodesThree(cp: nat)
    requires 0x800 <= cp <= 0xFFFF && !IsHigh(cp) && !IsLow(cp)
    ensures IsSequence(Utf8(cp)) && ScalarOf(Utf8(cp)) == cp
  {
    Div64(cp);
    Div64(cp / 64);
  }

  lemma EncodesFour(cp: nat)
    requires 0x10000 <= cp <= 0x10FFFF
    ensures IsSequence(Utf8(cp)) && ScalarOf(Utf8(cp)) == cp
  {
    Div64(cp);
    Div64(cp / 64);
    Div64(cp / 64 / 64);
  }

  /** The encoder writes the one sequence of its scalar value. */
  lemma EncodesScalar(cp: nat)
    requires IsScalar(cp)
    ensures IsSequence(Utf8(cp)) && ScalarOf(Utf8(cp)) == cp
  {
    if cp > 0x7F {
      hide Utf8, IsSequence, ScalarOf;
      if cp <= 0x7FF { EncodesTwo(cp); } else if cp <= 0xFFFF { EncodesThree(cp); } else { EncodesFour(cp); }
    }
  }

  /** A complete escape writes the sequence of one scalar value, or nothing while a low surrogate is due. */
  lemma EscapeWritesScalar(u: nat, high: nat)
    requires high == 0 || IsHigh(high)
    ensures var w := CodeUnit(u, high);
            w.Some? ==> if w.value.1 != 0 then w.value.0 == "" && high == 0 && w.value.1 == u
                        else IsSequence(w.value.0) && ScalarOf(w.value.0) == if high == 0 then u else PairCode(high, u)
  {
    hide Utf8;
    if high != 0 {
      if IsLow(u) { EncodesScalar(PairCode(high, u)); }
    } else if IsScalar(u) {
      EncodesScalar(u);
    }
  }

  // ----- validity and parts of a string

  lemma ValidCons(a: string, t: string)
    requires IsSequence(a) && ValidUtf8(t)
    ensures ValidUtf8(a + t)
  {
    assert (a + t)[..|a|] == a && (a + t)[|a|..] == t;
  }

  lemma AsciiStep(s: string)
    requires ValidUtf8(s) && s != "" && s[0] as int < 0x80
    ensures ValidUtf8(s[1..])
  {
  }

  lemma AsciiSteps(s: string, k: nat)
    requires ValidUtf8(s) && k <= |s| && forall i :: 0 <= i < k ==> s[i] as int < 0x80
    ensures ValidUtf8(s[k..])
  {
    if k > 0 {
      AsciiStep(s);
      AsciiSteps(s[1..], k - 1);
      assert s[1..][k - 1..] == s[k..];
    } else {
      assert s[k..] == s;
    }
  }

  lemma ValidDrop(s: string)
    requires ValidUtf8(s) && Peek(s) as int < 0x80
    ensures ValidUtf8(Drop(s))
  {
  }

  lemma {:induction false} ValidSkip(s: string)
    requires ValidUtf8(s)
    ensures ValidUtf8(SkipSpaces(s))
  {
    if s != "" && IsSpace(s[0]) {
      AsciiStep(s);
      ValidSkip(s[1..]);
    }
  }

  lemma HighBytes(a: string)
    requires IsSequence(a) && |a| > 1
    ensures forall i :: 0 <= i < |a| ==> a[i] as int >= 0x80
  {
  }

  // ----- strings

  /** Bytes from 0x80 on are copied. */
  lemma {:induction false} RawCopy(s: string, k: nat)
    requires k <= |s| && forall i :: 0 <= i < k ==> s[i] as int >= 0x80
    ensures Quoted(s, 0) == Prefixed(s[..k], Quoted(s[k..], 0))
  {
    if k == 0 {
      assert s[0..] == s;
      var r := Quoted(s, 0);
      if r.Ok? { assert "" + r.value == r.value; }
    } else {
      assert Quoted(s, 0) == Prefixed([s[0]], Quoted(s[1..], 0));
      RawCopy(s[1..], k - 1);
      assert s[1..][..k - 1] == s[1..k] && s[1..][k - 1..] == s[k..];
      PrefixedTwice([s[0]], s[1..k], Quoted(s[k..], 0));
      assert [s[0]] + s[1..k] == s[..k];
    }
  }

  lemma HexAscii(h: string)
    requires EscapeSequence(h).Some?
    ensures |h| >= 4 && forall i :: 0 <= i < 4 ==> h[i] as int < 0x80
  {
  }

  predicate ValidResult(r: Result<string>) {
    r.Ok? ==> ValidUtf8(r.value) && ValidUtf8(r.rest)
  }

  lemma ValidPrefixed(a: string, r: Result<string>)
    requires (a == "" || IsSequence(a)) && ValidResult(r)
    ensures ValidResult(Prefixed(a, r))
  {
    if r.Ok? {
      if a == "" { assert a + r.value == r.value; } else { ValidCons(a, r.value); }
    }
  }

  /** A string read from well-formed UTF-8 is well formed, and so is what follows it. */
  lemma {:induction false} QuotedValid(s: string, high: nat)
    requires ValidUtf8(s) && (high == 0 || IsHigh(high))
    ensures ValidResult(Quoted(s, high))
    decreases |s|
  {
    hide IsSequence, ValidUtf8, LeadLength, CodeUnit, EscapeSequence;
    if Peek(s) == NUL {
    } else if s[0] == '\\' {
      EscapeValid(s, high);
    } else if high == 0 {
      RawValid(s);
    }
  }

  lemma {:induction false} RawValid(s: string)
    requires ValidUtf8(s) && s != "" && s[0] != NUL && s[0] != '\\'
    ensures ValidResult(Quoted(s, 0))
    decreases |s|, 0
  {
    hide CodeUnit, EscapeSequence, SecondOk;
    var n := LeadLength(s[0]);
    if n == 1 {
      if s[0] != '"' {
        QuotedValid(s[1..], 0);
        ValidPrefixed([s[0]], Quoted(s[1..], 0));
      }
    } else {
      HighBytes(s[..n]);
      assert forall i :: 0 <= i < n ==> s[i] == s[..n][i];
      RawCopy(s, n);
      QuotedValid(s[n..], 0);
      ValidPrefixed(s[..n], Quoted(s[n..], 0));
    }
  }

  lemma {:induction false} EscapeValid(s: string, high: nat)
    requires ValidUtf8(s) && s != "" && s[0] == '\\' && (high == 0 || IsHigh(high))
    ensures ValidResult(Quoted(s, high))
    decreases |s|, 0
  {
    hide IsSequence, ValidUtf8, LeadLength, CodeUnit, EscapeSequence;
    AsciiStep(s);
    var t := s[1..];
    if Peek(t) == NUL {
    } else if t[0] == 'u' {
      AsciiStep(t);
      UnicodeValid(t[1..], high);
    } else {
      var e := SimpleEscapeChar(t[0]);
      if e.Some? {
        AsciiStep(t);
        QuotedValid(t[1..], high);
        assert IsSequence([e.value]) by { AsciiSequence(e.value); }
        ValidPrefixed([e.value], Quoted(t[1..], high));
      }
    }
  }

  lemma AsciiSequence(c: char)
    requires c as int < 0x80
    ensures IsSequence([c])
  {
  }

  lemma {:induction false} UnicodeValid(h: string, high: nat)
    requires ValidUtf8(h) && (high == 0 || IsHigh(high))
    ensures var u := EscapeSequence(h);
            u.Some? ==> var w := CodeUnit(u.value, high);
            w.Some? ==> ValidResult(Prefixed(w.value.0, Quoted(h[4..], w.value.1)))
    decreases |h|, 1
  {
    hide IsSequence, ValidUtf8, LeadLength, CodeUnit, EscapeSequence;
    var u := EscapeSequence(h);
    if u.Some? {
      var w := CodeUnit(u.value, high);
      if w.Some? {
        HexAscii(h);
        AsciiSteps(h, 4);
        QuotedValid(h[4..], w.value.1);
        EscapeWritesScalar(u.value, high);
        ValidPrefixed(w.value.0, Quoted(h[4..], w.value.1));
      }
    }
  }

  lemma {:induction false} CStringValid(s: string)
    requires ValidUtf8(s)
    ensures ValidUtf8(CString(s))
    decreases |s|
  {
    if s != "" && s[0] != NUL {
      var n := LeadLength(s[0]);
      CStringCopy(s, n);
      CStringValid(s[n..]);
      ValidCons(s[..n], CString(s[n..]));
    }
  }

  lemma {:induction false} CStringCopy(s: string, k: nat)
    requires k <= |s| && forall i :: 0 <= i < k ==> s[i] != NUL
    ensures CString(s) == s[..k] + CString(s[k..])
  {
    if k == 0 {
      assert s[0..] == s;
    } else {
      CStringCopy(s[1..], k - 1);
      assert s[1..][k - 1..] == s[k..];
      assert [s[0]] + s[1..][..k - 1] == s[..k];
    }
  }

  // ----- unquoted values

  lemma {:induction false} UnquotedCopy(s: string, k: nat)
    requires k <= |s| && forall i :: 0 <= i < k ==> s[i] as int >= 0x80
    ensures Unquoted(s).Ok? == Unquoted(s[k..]).Ok?
    ensures Unquoted(s).Ok? ==> Unquoted(s).rest == Unquoted(s[k..]).rest
  {
    if k == 0 {
      assert s[0..] == s;
    } else {
      UnquotedCopy(s[1..], k - 1);
      assert s[1..][k - 1..] == s[k..];
    }
  }

  lemma {:induction false} UnquotedValid(s: string)
    requires ValidUtf8(s)
    ensures Unquoted(s).Ok? ==> ValidUtf8(Unquoted(s).rest)
    decreases |s|
  {
    if Unquoted(s).Ok? && !EndsValue(s[0]) {
      hide SecondOk;
      var n := LeadLength(s[0]);
      if n > 1 {
        HighBytes(s[..n]);
        assert forall i :: 0 <= i < n ==> s[i] == s[..n][i];
        UnquotedCopy(s, n);
      }
      UnquotedValid(s[n..]);
    }
  }

  // ----- documents

  predicate TreeValid(v: Tree) {
    match v
    case Str(s) => ValidUtf8(s)
    case Array(items) => ItemsValid(items)
    case Object(ms) => MembersValid(ms)
    case _ => true
  }

  predicate ItemsValid(items: Items) {
    items.Item? ==> TreeValid(items.value) && ItemsValid(items.rest)
  }

  predicate MembersValid(ms: Members) {
    ms.Member? ==> ValidUtf8(ms.name) && TreeValid(ms.value) && MembersValid(ms.rest)
  }

  lemma {:induction false} ValueValid(c: char, s: string, level: nat, d: ToDouble)
    requires ValidUtf8([c] + s)
    ensures var r := Value(c, s, level, d); r.Ok? ==> TreeValid(r.value) && ValidUtf8(r.rest)
    decreases |s|, 5
  {
    hide ValidUtf8, ObjectBody, ArrayBody, Quoted, Unquoted;
    assert ([c] + s)[1..] == s;
    if c as int < 0x80 { AsciiStep([c] + s); }
    if c == '{' {
      ObjectValid(s, level + 1, d);
    } else if c == '[' {
      ArrayValid(s, level + 1, d);
    } else if c == '"' {
      QuotedValid(s, 0);
      if Quoted(s, 0).Ok? { CStringValid(Quoted(s, 0).value); }
    } else {
      ScalarValid(c, s);
    }
  }

  lemma ScalarValid(c: char, s: string)
    requires ValidUtf8([c] + s) && (c as int < 0x80 ==> ValidUtf8(s))
    ensures Unquoted(s).Ok? ==> ValidUtf8(Unquoted(s).rest)
  {
    if c as int < 0x80 {
      UnquotedValid(s);
    } else {
      UnquotedValid([c] + s);
      assert ([c] + s)[1..] == s;
    }
  }

  lemma {:induction false} ObjectValid(s: string, level: nat, d: ToDouble)
    requires ValidUtf8(s)
    ensures var r := ObjectBody(s, level, d); r.Ok? ==> TreeValid(r.value) && ValidUtf8(r.rest)
    decreases |s|, 2
  {
    hide ValidUtf8, MembersFrom;
    var t := SkipSpaces(s);
    ValidSkip(s);
    if Peek(t) == '}' { ValidDrop(t); } else { MembersFromValid(t, level, d); }
  }

  lemma ValidParts(s: string)
    requires ValidUtf8(s)
    ensures ValidUtf8([Peek(s)] + Drop(s))
  {
    if s != "" { assert [s[0]] + s[1..] == s; }
  }

  lemma {:induction false} MembersFromValid(s: string, level: nat, d: ToDouble)
    requires ValidUtf8(s)
    ensures var r := MembersFrom(s, level, d); r.Ok? ==> MembersValid(r.value) && ValidUtf8(r.rest)
    decreases |s|, 1
  {
    hide ValidUtf8, Value, Quoted, CString, SkipSpaces;
    var r := MembersFrom(s, level, d);
    if r.Ok? {
      AsciiStep(s);
      QuotedValid(s[1..], 0);
      var q := Quoted(s[1..], 0);
      CStringValid(q.value);
      ValidSkip(q.rest);
      var colon := SkipSpaces(q.rest);
      ValidDrop(colon);
      ValidSkip(Drop(colon));
      var v := SkipSpaces(Drop(colon));
      ValidParts(v);
      ValueValid(Peek(v), Drop(v), level, d);
      var x := Value(Peek(v), Drop(v), level, d);
      ValidSkip(x.rest);
      var comma := SkipSpaces(x.rest);
      ValidDrop(comma);
      if Peek(comma) == ',' {
        ValidSkip(Drop(comma));
        MembersFromValid(SkipSpaces(Drop(comma)), level, d);
      }
    }
  }

  lemma {:induction false} ArrayValid(s: string, level: nat, d: ToDouble)
    requires ValidUtf8(s)
    ensures var r := ArrayBody(s, level, d); r.Ok? ==> TreeValid(r.value) && ValidUtf8(r.rest)
    decreases |s|, 2
  {
    hide ValidUtf8, ItemsFrom;
    var t := SkipSpaces(s);
    ValidSkip(s);
    if Peek(t) == ']' { ValidDrop(t); } else { ItemsFromValid(t, level, d); }
  }

  lemma {:induction false} ItemsFromValid(s: string, level: nat, d: ToDouble)
    requires ValidUtf8(s)
    ensures var r := ItemsFrom(s, level, d); r.Ok? ==> ItemsValid(r.value) && ValidUtf8(r.rest)
    decreases |s|, 1
  {
    hide ValidUtf8, Value, SkipSpaces;
    var r := ItemsFrom(s, level, d);
    if r.Ok? {
      ValidParts(s);
      ValueValid(s[0], s[1..], level, d);
      var x := Value(s[0], s[1..], level, d);
      ValidSkip(x.rest);
      var comma := SkipSpaces(x.rest);
      ValidDrop(comma);
      if Peek(comma) == ',' {
        ValidSkip(Drop(comma));
        ItemsFromValid(SkipSpaces(Drop(comma)), level, d);
      }
    }
  }

  lemma DocumentValid(s: string, obj: bool, d: ToDouble)
    requires ValidUtf8(s)
    ensures var r := Document(s, obj, d); r.Ok? ==> TreeValid(r.value) && ValidUtf8(r.rest)
  {
    hide ValidUtf8, ObjectBody, ArrayBody;
    var t := SkipSpaces(s);
    ValidSkip(s);
    if Peek(t) == '{' || Peek(t) == '[' {
      ValidDrop(t);
      if obj { ObjectValid(Drop(t), 0, d); } else { ArrayValid(Drop(t), 0, d); }
    }
  }

  // ----- everything a handler is given, accepted document or not

  predicate HandedValid(h: Handed) {
    h.Leaf? ==> TreeValid(h.v)
  }

  predicate EventValid(e: Event) {
    match e
    case Field(name, h) => ValidUtf8(name) && HandedValid(h)
    case Element(h) => HandedValid(h)
    case _ => true
  }

  predicate AllValid(es: seq<Event>) {
    forall i :: 0 <= i < |es| ==> EventValid(es[i])
  }

  lemma JoinValid(e: Event, a: seq<Event>, b: seq<Event>)
    requires EventValid(e) && AllValid(a) && AllValid(b)
    ensures AllValid([e] + (a + b))
  {
    hide EventValid;
  }

  lemma NoneValid()
    ensures AllValid([]) && AllValid([Enter])
  {
  }

  lemma HandingValid(c: char, s: string, level: nat, d: ToDouble)
    requires ValidUtf8([c] + s)
    ensures var h := Handing(c, s, level, d); h != [] ==> HandedValid(h[0])
  {
    hide ValidUtf8, Value;
    ValueValid(c, s, level, d);
  }

  lemma {:induction false} InsideValid(c: char, s: string, level: nat, d: ToDouble)
    requires ValidUtf8([c] + s)
    ensures AllValid(InsideEvents(c, s, level, d))
    decreases |s|, 5
  {
    hide ValidUtf8, ObjectEvents, ArrayEvents, AllValid;
    NoneValid();
    if c == '{' || c == '[' {
      assert ([c] + s)[1..] == s;
      AsciiStep([c] + s);
      if c == '{' { ObjectEventsValid(s, level + 1, d); } else { ArrayEventsValid(s, level + 1, d); }
    }
  }

  lemma AroundValid(es: seq<Event>, ok: bool)
    requires AllValid(es)
    ensures AllValid([Enter] + (es + Leaving(ok)))
  {
    JoinValid(Enter, es, Leaving(ok));
  }

  lemma {:induction false} ObjectEventsValid(s: string, level: nat, d: ToDouble)
    requires ValidUtf8(s)
    ensures AllValid(ObjectEvents(s, level, d))
    decreases |s|, 3
  {
    hide ValidUtf8, MembersEvents, ObjectBody, AllValid;
    NoneValid();
    ValidSkip(s);
    var t := SkipSpaces(s);
    if Peek(t) != '}' { MembersEventsValid(t, level, d); }
    AroundValid(MembersOrEnd(s, level, d), ObjectBody(s, level, d).Ok?);
  }

  lemma {:induction false} MembersEventsValid(s: string, level: nat, d: ToDouble)
    requires ValidUtf8(s)
    ensures AllValid(MembersEvents(s, level, d))
    decreases |s|, 1
  {
    hide ValidUtf8, Quoted, CString, SkipSpaces, FieldEvents, AllValid;
    NoneValid();
    if Peek(s) == '"' {
      AsciiStep(s);
      QuotedValid(s[1..], 0);
      var name := Quoted(s[1..], 0);
      if name.Ok? {
        CStringValid(name.value);
        ValidSkip(name.rest);
        var colon := SkipSpaces(name.rest);
        if Peek(colon) == ':' {
          ValidDrop(colon);
          FieldEventsValid(CString(name.value), Drop(colon), level, d);
        }
      }
    }
  }

  lemma {:induction false} FieldEventsValid(name: string, s: string, level: nat, d: ToDouble)
    requires ValidUtf8(name) && ValidUtf8(s)
    ensures AllValid(FieldEvents(name, s, level, d))
    decreases |s|, 6
  {
    hide ValidUtf8, Value, Handing, SkipSpaces, InsideEvents, CommaEvents, AllValid, HandedValid;
    NoneValid();
    ValidSkip(s);
    var t := SkipSpaces(s);
    ValidParts(t);
    HandingValid(Peek(t), Drop(t), level, d);
    InsideValid(Peek(t), Drop(t), level, d);
    ValueValid(Peek(t), Drop(t), level, d);
    var h, x := Handing(Peek(t), Drop(t), level, d), Value(Peek(t), Drop(t), level, d);
    if h != [] {
      var rest := if x.Err? || t == "" then [] else CommaEvents(x.rest, level, d);
      if x.Ok? && t != "" { CommaEventsValid(x.rest, level, d); }
      JoinValid(Field(name, h[0]), InsideEvents(Peek(t), Drop(t), level, d), rest);
    }
  }

  lemma {:induction false} CommaEventsValid(s: string, level: nat, d: ToDouble)
    requires ValidUtf8(s)
    ensures AllValid(CommaEvents(s, level, d))
    decreases |s|, 2
  {
    hide ValidUtf8, MembersEvents, AllValid;
    NoneValid();
    ValidSkip(s);
    var t := SkipSpaces(s);
    if Peek(t) == ',' {
      ValidDrop(t);
      ValidSkip(Drop(t));
      MembersEventsValid(SkipSpaces(Drop(t)), level, d);
    }
  }

  lemma {:induction false} ArrayEventsValid(s: string, level: nat, d: ToDouble)
    requires ValidUtf8(s)
    ensures AllValid(ArrayEvents(s, level, d))
    decreases |s|, 3
  {
    hide ValidUtf8, ItemsEvents, ArrayBody, AllValid;
    NoneValid();
    ValidSkip(s);
    var t := SkipSpaces(s);
    if Peek(t) != ']' { ItemsEventsValid(t, level, d); }
    AroundValid(ItemsOrEnd(s, level, d), ArrayBody(s, level, d).Ok?);
  }

  lemma {:induction false} ItemsEventsValid(s: string, level: nat, d: ToDouble)
    requires ValidUtf8(s)
    ensures AllValid(ItemsEvents(s, level, d))
    decreases |s|, 1
  {
    hide ValidUtf8, Value, Handing, InsideEvents, ItemCommaEvents, AllValid, HandedValid;
    NoneValid();
    if s != "" {
      ValidParts(s);
      HandingValid(s[0], s[1..], level, d);
      InsideValid(s[0], s[1..], level, d);
      ValueValid(s[0], s[1..], level, d);
      var h, x := Handing(s[0], s[1..], level, d), Value(s[0], s[1..], level, d);
      if h != [] {
        var rest := if x.Err? then [] else ItemCommaEvents(x.rest, level, d);
        if x.Ok? { ItemCommaEventsValid(x.rest, level, d); }
        JoinValid(Element(h[0]), InsideEvents(s[0], s[1..], level, d), rest);
      }
    }
  }

  lemma {:induction false} ItemCommaEventsValid(s: string, level: nat, d: ToDouble)
    requires ValidUtf8(s)
    ensures AllValid(ItemCommaEvents(s, level, d))
    decreases |s|, 2
  {
    hide ValidUtf8, ItemsEvents, AllValid;
    NoneValid();
    ValidSkip(s);
    var t := SkipSpaces(s);
    if Peek(t) == ',' {
      ValidDrop(t);
      ValidSkip(Drop(t));
      ItemsEventsValid(SkipSpaces(Drop(t)), level, d);
    }
  }

  /** Whatever becomes of the document: every field name and string handed over is well-formed UTF-8 when the text is. */
  lemma EventsValid(s: string, obj: bool, d: ToDouble)
    requires ValidUtf8(s)
    ensures AllValid(Events(s, obj, d))
  {
    hide ValidUtf8, ObjectEvents, ArrayEvents, AllValid;
    NoneValid();
    ValidSkip(s);
    var t := SkipSpaces(s);
    if Peek(t) == (if obj then '{' else '[') {
      ValidDrop(t);
      if obj { ObjectEventsValid(Drop(t), 0, d); } else { ArrayEventsValid(Drop(t), 0, d); }
    }
  }
}
