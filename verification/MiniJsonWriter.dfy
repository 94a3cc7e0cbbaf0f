/**
 minijson's writer as it runs: buffered writers of any size over one stream, and a writer
 per container that opens, separates and closes.  What reaches the stream is the text of
 the tree.
 */
module MiniJsonWriter {
  import opened JsonNumber
  import opened MiniJson
  import opened MiniJsonText

  // ----- text and what follows it

  lemma Assoc(a: string, b: string, c: string)
    ensures (a + b) + c == a + (b + c)
  {
  }

  lemma {:induction false} EscapedAppend(s: string, t: string)
    ensures EscapedText(s, t) == EscapedText(s, "") + t
  {
    hide Escaped;
    if s == "" {
      assert "" + t == t;
    } else {
      EscapedAppend(s[1..], t);
      Assoc(Escaped(s[0]), EscapedText(s[1..], ""), t);
    }
  }

  lemma QuotedAppend(s: string, t: string)
    ensures QuotedText(s, t) == QuotedText(s, "") + t
  {
    hide EscapedText;
    EscapedAppend(s, ['"'] + t);
    EscapedAppend(s, ['"'] + "");
    var e := EscapedText(s, "");
    assert ['"'] + (e + (['"'] + t)) == (['"'] + (e + (['"'] + ""))) + t;
  }

  lemma {:induction false} TreeAppend(v: Tree, cfg: Config, level: nat, t: string)
    requires Writable(v)
    ensures TreeText(v, cfg, level, t) == TreeText(v, cfg, level, "") + t
    decreases v, 0
  {
    hide QuotedText, ItemsText, MembersText;
    match v
    case Null => assert "null" + "" == "null";
    case Bool(b) => assert (if b then "true" else "false") + "" == if b then "true" else "false";
    case Long(n) => assert IntText(n) + "" == IntText(n);
    case Str(s) => QuotedAppend(s, t);
    case Array(items) =>
      if items.Item? { ItemsAppend(items, cfg, level, t); }
      BracketAppend('[', ']', t, if items.Item? then ItemsText(items, cfg, level, "") else "");
    case Object(ms) =>
      if ms.Member? { MembersAppend(ms, cfg, level, t); }
      BracketAppend('{', '}', t, if ms.Member? then MembersText(ms, cfg, level, "") else "");
  }

  lemma BracketAppend(open: char, close: char, t: string, body: string)
    ensures [open] + ([close] + t) == ([open] + ([close] + "")) + t
    ensures [open] + (body + t) == ([open] + body) + t
  {
  }

  lemma {:induction false} ItemsAppend(items: Items, cfg: Config, level: nat, t: string)
    requires items.Item? && WritableItems(items)
    ensures ItemsText(items, cfg, level, t) == ItemsText(items, cfg, level, "") + t
    decreases items, 0
  {
    hide TreeText, Break;
    ItemsTailAppend(items.rest, cfg, level, t);
    var tail, all := ItemsTail(items.rest, cfg, level, ""), ItemsTail(items.rest, cfg, level, t);
    TreeAppend(items.value, cfg, level + 1, tail);
    TreeAppend(items.value, cfg, level + 1, all);
    var b, x := Break(cfg, level + 1), TreeText(items.value, cfg, level + 1, "");
    assert b + (x + (tail + t)) == (b + (x + tail)) + t;
  }

  lemma {:induction false} ItemsTailAppend(items: Items, cfg: Config, level: nat, t: string)
    requires WritableItems(items)
    ensures ItemsTail(items, cfg, level, t) == ItemsTail(items, cfg, level, "") + t
    decreases items, 1
  {
    hide ItemsText, Break;
    if items.Item? {
      ItemsAppend(items, cfg, level, t);
      Assoc([','], ItemsText(items, cfg, level, ""), t);
    } else {
      assert Break(cfg, level) + ([']'] + t) == (Break(cfg, level) + ([']'] + "")) + t;
    }
  }

  lemma {:induction false} MembersAppend(ms: Members, cfg: Config, level: nat, t: string)
    requires ms.Member? && WritableMembers(ms)
    ensures MembersText(ms, cfg, level, t) == MembersText(ms, cfg, level, "") + t
    decreases ms, 1
  {
    hide QuotedText, FieldText, Break;
    FieldAppend(ms, cfg, level, t);
    var f := FieldText(ms, cfg, level, "");
    QuotedAppend(ms.name, f);
    QuotedAppend(ms.name, f + t);
    var b, q := Break(cfg, level + 1), QuotedText(ms.name, "");
    assert b + (q + (f + t)) == (b + (q + f)) + t;
  }

  lemma {:induction false} FieldAppend(ms: Members, cfg: Config, level: nat, t: string)
    requires ms.Member? && WritableMembers(ms)
    ensures FieldText(ms, cfg, level, t) == FieldText(ms, cfg, level, "") + t
    decreases ms, 0
  {
    hide TreeText, AfterColon;
    MembersTailAppend(ms.rest, cfg, level, t);
    var tail := MembersTail(ms.rest, cfg, level, "");
    TreeAppend(ms.value, cfg, level + 1, tail);
    TreeAppend(ms.value, cfg, level + 1, tail + t);
    var a, x := AfterColon(cfg), TreeText(ms.value, cfg, level + 1, "");
    assert [':'] + (a + (x + (tail + t))) == ([':'] + (a + (x + tail))) + t;
  }

  lemma {:induction false} MembersTailAppend(ms: Members, cfg: Config, level: nat, t: string)
    requires WritableMembers(ms)
    ensures MembersTail(ms, cfg, level, t) == MembersTail(ms, cfg, level, "") + t
    decreases ms, 2
  {
    hide MembersText, Break;
    if ms.Member? {
      MembersAppend(ms, cfg, level, t);
      Assoc([','], MembersText(ms, cfg, level, ""), t);
    } else {
      assert Break(cfg, level) + (['}'] + t) == (Break(cfg, level) + (['}'] + "")) + t;
    }
  }

  // ----- streams and buffers

  class Stream {
    var out: string

    constructor ()
      ensures out == ""
    {
      out := "";
    }

    method Put(s: string)
      modifies this
      ensures out == old(out) + s
    {
      out := out + s;
    }
  }

  class BufferedWriter {
    const stream: Stream
    const buffer: array<char>
    var offset: nat

    ghost predicate Valid()
      reads this
    {
      offset <= buffer.Length && buffer.Length > 0
    }

    /** Everything written so far, in the stream or still in the buffer. */
    ghost function All(): string
      requires Valid()
      reads this, stream, buffer
    {
      stream.out + buffer[..offset]
    }

    constructor (s: Stream, size: nat)
      requires size > 0
      ensures Valid() && stream == s && fresh(buffer) && All() == s.out
    {
      stream := s;
      buffer := new char[size];
      offset := 0;
      new;
      assert s.out + [] == s.out;
    }

    method Flush()
      requires Valid()
      modifies this, stream
      ensures Valid() && offset == 0 && stream.out == old(All()) == All()
    {
      stream.Put(buffer[..offset]);
      offset := 0;
      assert stream.out + [] == stream.out;
    }

    method Put(c: char)
      requires Valid()
      modifies this, stream, buffer
      ensures Valid() && All() == old(All()) + [c]
    {
      if offset == buffer.Length {
        Flush();
      }
      ghost var before := buffer[..offset];
      buffer[offset] := c;
      offset := offset + 1;
      assert buffer[..offset] == before + [c];
      Assoc(stream.out, before, [c]);
    }

    method PutAll(s: string)
      requires Valid()
      modifies this, stream, buffer
      ensures Valid() && All() == old(All()) + s
    {
      hide All;
      for i := 0 to |s|
        invariant Valid() && All() == old(All()) + s[..i]
      {
        Put(s[i]);
        assert s[..i + 1] == s[..i] + [s[i]];
        Assoc(old(All()), s[..i], [s[i]]);
      }
      assert s[..|s|] == s;
    }
  }

  /** Escapes are written through the buffer, hexadecimal digits straight to the flushed stream. */
  method WriteEscaped(w: BufferedWriter, c: char)
    requires w.Valid() && c != NUL
    modifies w, w.stream, w.buffer
    ensures w.Valid() && w.All() == old(w.All()) + Escaped(c)
  {
    if c == '"' || c == '\\' || c == '\n' || c == '\r' || c == '\t' {
      w.PutAll(Escaped(c));
    } else if IsAsciiControl(c) {
      w.PutAll("\\u");
      w.Flush();
      w.stream.Put(['0', '0', LowerHexDigit(c as int / 16), LowerHexDigit(c as int % 16)]);
      assert w.buffer[..w.offset] == [];
      assert "\\u" + ['0', '0', LowerHexDigit(c as int / 16), LowerHexDigit(c as int % 16)] == Escaped(c);
    } else {
      w.Put(c);
    }
  }

  /** A C string is quoted up to its NUL, for every buffer size. */
  method WriteQuotedString(stream: Stream, str: string, size: nat)
    requires size > 0
    modifies stream
    ensures stream.out == old(stream.out) + QuotedText(CString(str), "")
  {
    hide Escaped, QuotedText;
    var w := new BufferedWriter(stream, size);
    w.Put('"');
    var i := 0;
    assert str[0..] == str;
    QuotedStarts(old(stream.out), CString(str));
    while i < |str| && str[i] != NUL
      invariant i <= |str| && w.Valid() && w.stream == stream && fresh(w) && fresh(w.buffer)
      invariant w.All() + EscapedText(CString(str[i..]), ['"']) == old(stream.out) + QuotedText(CString(str), "")
      decreases |str| - i
    {
      EscapedGoesOn(w.All(), str, i);
      WriteEscaped(w, str[i]);
      i := i + 1;
    }
    EscapedStops(w.All(), str, i);
    w.Put('"');
    w.Flush();
  }

  lemma QuotedStarts(out: string, s: string)
    ensures (out + ['"']) + EscapedText(s, ['"']) == out + QuotedText(s, "")
  {
    hide EscapedText;
    assert ['"'] + "" == ['"'];
  }

  lemma EscapedGoesOn(out: string, str: string, i: nat)
    requires i < |str| && str[i] != NUL
    ensures out + EscapedText(CString(str[i..]), ['"']) == (out + Escaped(str[i])) + EscapedText(CString(str[i + 1..]), ['"'])
  {
    hide Escaped;
    var rest := CString(str[i + 1..]);
    assert str[i..][1..] == str[i + 1..];
    assert ([str[i]] + rest)[1..] == rest;
  }

  lemma EscapedStops(out: string, str: string, i: nat)
    requires i == |str| || (i < |str| && str[i] == NUL)
    ensures out + EscapedText(CString(str[i..]), ['"']) == out + ['"']
  {
  }

  // ----- one writer for each container

  datatype Status = Empty | Open | Closed

  /** Sizes of the buffers for strings and for line breaks; minijson uses 128 and 16. */
  datatype Sizes = Sizes(strings: nat, tokens: nat) {
    predicate Ok() {
      strings > 0 && tokens > 0
    }
  }

  class Writer {
    const isArray: bool
    const stream: Stream
    const cfg: Config
    const level: nat
    const sizes: Sizes
    var status: Status

    constructor (s: Stream, a: bool, c: Config, l: nat, z: Sizes)
      ensures stream == s && isArray == a && cfg == c && level == l && sizes == z && status == Empty
    {
      isArray, stream, cfg, level, sizes, status := a, s, c, l, z, Empty;
    }

    /** A line break with one level of indentation more for an element than for a closing bracket. */
    method WriteBreak(depth: nat)
      requires sizes.Ok()
      modifies stream
      ensures stream.out == old(stream.out) + Break(cfg, depth)
    {
      if !cfg.pretty {
        return;
      }
      var w := new BufferedWriter(stream, sizes.tokens);
      var n := if cfg.tabs then depth else depth * cfg.spaces;
      var c := if cfg.tabs then '\t' else ' ';
      w.Put('\n');
      for i := 0 to n
        invariant w.Valid() && w.stream == stream && fresh(w) && fresh(w.buffer)
        invariant w.All() == old(stream.out) + (['\n'] + Repeat(c, i))
      {
        RepeatSnoc(old(stream.out), c, i);
        w.Put(c);
      }
      w.Flush();
    }

    method WriteAfterColon()
      requires sizes.Ok()
      modifies stream
      ensures stream.out == old(stream.out) + AfterColon(cfg)
    {
      if cfg.pretty {
        var w := new BufferedWriter(stream, sizes.tokens);
        w.Put(' ');
        w.Flush();
      }
    }

    function Opening(): string {
      if isArray then "[" else "{"
    }

    function Closing(): string {
      if isArray then "]" else "}"
    }

    method NextField()
      requires sizes.Ok()
      modifies this, stream
      ensures status == Open
      ensures stream.out == old(stream.out) + (Separator(old(status)) + Break(cfg, level + 1))
    {
      hide Break;
      stream.Put(Separator(status));
      WriteBreak(level + 1);
      status := Open;
    }

    function Separator(s: Status): string {
      match s
      case Empty => Opening()
      case Open => ","
      case Closed => ""
    }

    method WriteFieldName(name: string)
      requires sizes.Ok()
      modifies stream
      ensures stream.out == old(stream.out) + (QuotedText(CString(name), "") + ([':'] + AfterColon(cfg)))
    {
      hide QuotedText, AfterColon;
      WriteQuotedString(stream, name, sizes.strings);
      stream.Put(":");
      WriteAfterColon();
    }

    /** Closing twice does nothing; an empty container gets both brackets and no line break. */
    method Close()
      requires sizes.Ok()
      modifies this, stream
      ensures status == Closed
      ensures stream.out == old(stream.out) + CloseText(old(status))
    {
      hide Break;
      if status == Closed {
        return;
      }
      if status == Empty {
        stream.Put(Opening());
      } else {
        WriteBreak(level);
      }
      stream.Put(Closing());
      status := Closed;
    }

    function CloseText(s: Status): string {
      match s
      case Empty => Opening() + Closing()
      case Open => Break(cfg, level) + Closing()
      case Closed => ""
    }
  }

  lemma {:induction false} RepeatLast(c: char, n: nat)
    ensures Repeat(c, n) + [c] == Repeat(c, n + 1)
  {
    if n > 0 { RepeatLast(c, n - 1); }
  }

  lemma RepeatSnoc(out: string, c: char, n: nat)
    ensures (out + (['\n'] + Repeat(c, n))) + [c] == out + (['\n'] + Repeat(c, n + 1))
  {
    RepeatLast(c, n);
  }

  // ----- whole trees, writers used in stack order

  /** What is still to be written of an array. */
  ghost function ItemsLeft(status: Status, items: Items, cfg: Config, level: nat): string
    requires WritableItems(items)
  {
    if status == Empty then TreeText(Array(items), cfg, level, "") else ItemsTail(items, cfg, level, "")
  }

  lemma ItemLeft(status: Status, items: Items, cfg: Config, level: nat, sep: string)
    requires WritableItems(items) && items.Item? && status != Closed
    requires sep == if status == Empty then "[" else ","
    ensures ItemsLeft(status, items, cfg, level)
         == (sep + Break(cfg, level + 1)) + (TreeText(items.value, cfg, level + 1, "") + ItemsLeft(Open, items.rest, cfg, level))
  {
    hide TreeText, Break;
    TreeAppend(items.value, cfg, level + 1, ItemsTail(items.rest, cfg, level, ""));
    var x := TreeText(items.value, cfg, level + 1, "") + ItemsTail(items.rest, cfg, level, "");
    assert ItemsText(items, cfg, level, "") == Break(cfg, level + 1) + x;
    Assoc(sep, Break(cfg, level + 1), x);
    if status == Empty { ArrayOpens(items, cfg, level); }
  }

  lemma ArrayOpens(items: Items, cfg: Config, level: nat)
    requires WritableItems(items) && items.Item?
    ensures TreeText(Array(items), cfg, level, "") == "[" + ItemsText(items, cfg, level, "")
  {
  }

  lemma ArrayCloses(w: Writer)
    requires w.isArray && w.status != Closed
    ensures ItemsLeft(w.status, NoItems, w.cfg, w.level) == w.CloseText(w.status)
  {
    hide Break;
    assert [']'] + "" == "]";
  }

  method WriteArray(stream: Stream, items: Items, cfg: Config, level: nat, sizes: Sizes)
    requires sizes.Ok() && WritableItems(items)
    modifies stream
    ensures stream.out == old(stream.out) + TreeText(Array(items), cfg, level, "")
    decreases items
  {
    hide TreeText, Break, ItemsLeft;
    var w := new Writer(stream, true, cfg, level, sizes);
    var left := items;
    assert ItemsLeft(Empty, items, cfg, level) == TreeText(Array(items), cfg, level, "") by { ArrayAll(items, cfg, level); }
    while left.Item?
      invariant fresh(w) && w.stream == stream && w.isArray && w.cfg == cfg && w.level == level && w.sizes == sizes && w.status != Closed
      invariant WritableItems(left) && (left == items || left < items)
      invariant stream.out + ItemsLeft(w.status, left, cfg, level) == old(stream.out) + TreeText(Array(items), cfg, level, "")
      decreases left
    {
      ghost var sep := w.Separator(w.status) + Break(cfg, level + 1);
      ghost var x := TreeText(left.value, cfg, level + 1, "");
      ItemLeft(w.status, left, cfg, level, w.Separator(w.status));
      Joined(stream.out, sep, x, ItemsLeft(Open, left.rest, cfg, level));
      w.NextField();
      WriteTree(stream, left.value, cfg, level + 1, sizes);
      left := left.rest;
    }
    ArrayCloses(w);
    w.Close();
  }

  lemma ArrayAll(items: Items, cfg: Config, level: nat)
    requires WritableItems(items)
    ensures ItemsLeft(Empty, items, cfg, level) == TreeText(Array(items), cfg, level, "")
  {
  }

  lemma Joined(out: string, a: string, b: string, c: string)
    ensures out + (a + (b + c)) == ((out + a) + b) + c
  {
  }

  ghost function MembersLeft(status: Status, ms: Members, cfg: Config, level: nat): string
    requires WritableMembers(ms)
  {
    if status == Empty then TreeText(Object(ms), cfg, level, "") else MembersTail(ms, cfg, level, "")
  }

  lemma ObjectAll(ms: Members, cfg: Config, level: nat)
    requires WritableMembers(ms)
    ensures MembersLeft(Empty, ms, cfg, level) == TreeText(Object(ms), cfg, level, "")
  {
  }

  lemma ObjectOpens(ms: Members, cfg: Config, level: nat)
    requires WritableMembers(ms) && ms.Member?
    ensures TreeText(Object(ms), cfg, level, "") == "{" + MembersText(ms, cfg, level, "")
  {
  }

  lemma ObjectCloses(w: Writer)
    requires !w.isArray && w.status != Closed
    ensures MembersLeft(w.status, NoMembers, w.cfg, w.level) == w.CloseText(w.status)
  {
    hide Break;
    assert ['}'] + "" == "}";
  }

  lemma FieldLeft(ms: Members, cfg: Config, level: nat)
    requires WritableMembers(ms) && ms.Member?
    ensures QuotedText(ms.name, FieldText(ms, cfg, level, ""))
         == (QuotedText(ms.name, "") + ([':'] + AfterColon(cfg))) + (TreeText(ms.value, cfg, level + 1, "") + MembersLeft(Open, ms.rest, cfg, level))
  {
    hide TreeText, QuotedText, AfterColon;
    TreeAppend(ms.value, cfg, level + 1, MembersTail(ms.rest, cfg, level, ""));
    QuotedAppend(ms.name, FieldText(ms, cfg, level, ""));
    var q, a := QuotedText(ms.name, ""), AfterColon(cfg);
    var x := TreeText(ms.value, cfg, level + 1, "") + MembersTail(ms.rest, cfg, level, "");
    assert q + ([':'] + (a + x)) == (q + ([':'] + a)) + x;
  }

  lemma MemberLeft(status: Status, ms: Members, cfg: Config, level: nat, sep: string)
    requires WritableMembers(ms) && ms.Member? && status != Closed
    requires sep == if status == Empty then "{" else ","
    ensures MembersLeft(status, ms, cfg, level)
         == (sep + Break(cfg, level + 1)) + ((QuotedText(ms.name, "") + ([':'] + AfterColon(cfg)))
            + (TreeText(ms.value, cfg, level + 1, "") + MembersLeft(Open, ms.rest, cfg, level)))
  {
    hide TreeText, Break, QuotedText, FieldText, AfterColon;
    FieldLeft(ms, cfg, level);
    var x := QuotedText(ms.name, FieldText(ms, cfg, level, ""));
    assert MembersText(ms, cfg, level, "") == Break(cfg, level + 1) + x;
    Assoc(sep, Break(cfg, level + 1), x);
    if status == Empty { ObjectOpens(ms, cfg, level); }
  }

  method WriteObject(stream: Stream, ms: Members, cfg: Config, level: nat, sizes: Sizes)
    requires sizes.Ok() && WritableMembers(ms)
    modifies stream
    ensures stream.out == old(stream.out) + TreeText(Object(ms), cfg, level, "")
    decreases ms
  {
    hide TreeText, Break, MembersLeft, QuotedText, AfterColon, CString;
    var w := new Writer(stream, false, cfg, level, sizes);
    var left := ms;
    ObjectAll(ms, cfg, level);
    while left.Member?
      invariant fresh(w) && w.stream == stream && !w.isArray && w.cfg == cfg && w.level == level && w.sizes == sizes && w.status != Closed
      invariant WritableMembers(left) && (left == ms || left < ms)
      invariant stream.out + MembersLeft(w.status, left, cfg, level) == old(stream.out) + TreeText(Object(ms), cfg, level, "")
      decreases left
    {
      ghost var sep := w.Separator(w.status) + Break(cfg, level + 1);
      ghost var n := QuotedText(left.name, "") + ([':'] + AfterColon(cfg));
      ghost var x := TreeText(left.value, cfg, level + 1, "");
      MemberLeft(w.status, left, cfg, level, w.Separator(w.status));
      JoinedTwice(stream.out, sep, n, x, MembersLeft(Open, left.rest, cfg, level));
      NulFreeCString(left.name);
      w.NextField();
      w.WriteFieldName(left.name);
      WriteTree(stream, left.value, cfg, level + 1, sizes);
      left := left.rest;
    }
    ObjectCloses(w);
    w.Close();
  }

  lemma JoinedTwice(out: string, a: string, b: string, c: string, e: string)
    ensures out + (a + (b + (c + e))) == (((out + a) + b) + c) + e
  {
  }

  /** The stream gains exactly the text of the tree, whatever the sizes of the buffers. */
  method WriteTree(stream: Stream, v: Tree, cfg: Config, level: nat, sizes: Sizes)
    requires sizes.Ok() && Writable(v)
    modifies stream
    ensures stream.out == old(stream.out) + TreeText(v, cfg, level, "")
    decreases v
  {
    hide ItemsText, MembersText, QuotedText;
    match v {
      case Null => stream.Put("null");
      case Bool(b) => stream.Put(if b then "true" else "false");
      case Long(n) => stream.Put(IntText(n));
      case Str(s) =>
        NulFreeCString(s);
        WriteQuotedString(stream, s, sizes.strings);
      case Array(items) => WriteArray(stream, items, cfg, level, sizes);
      case Object(ms) => WriteObject(stream, ms, cfg, level, sizes);
    }
  }
}
