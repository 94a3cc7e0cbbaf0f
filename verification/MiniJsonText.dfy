/**
 The text minijson's writer produces for a tree, and the round trip through the reader:
 for every indentation, the text reads back as the tree exactly when no more than
 NESTING_LIMIT + 1 containers are nested, and otherwise the reader reports the limit.
 */
module MiniJsonText {
  import opened JsonNumber
  import opened JsonString
  import opened MiniJson

  datatype Config = Config(pretty: bool, spaces: nat, tabs: bool)

  // ----- text of a tree; every function takes the text that follows

  function LowerHexDigit(d: nat): char
    requires d < 16
  {
    if d < 10 then '0' + d as char else 'a' + (d - 10) as char
  }

  predicate IsAsciiControl(c: char) {
    0 < c as int < 32 || c as int == 127
  }

  function Escaped(c: char): string {
    if c == '"' then "\\\""
    else if c == '\\' then "\\\\"
    else if c == '\n' then "\\n"
    else if c == '\r' then "\\r"
    else if c == '\t' then "\\t"
    else if IsAsciiControl(c) then ['\\', 'u', '0', '0', LowerHexDigit(c as int / 16), LowerHexDigit(c as int % 16)]
    else [c]
  }

  function EscapedText(s: string, t: string): string {
    if s == "" then t else Escaped(s[0]) + EscapedText(s[1..], t)
  }

  function QuotedText(s: string, t: string): string {
    ['"'] + EscapedText(s, ['"'] + t)
  }

  function Repeat(c: char, n: nat): string {
    if n == 0 then "" else [c] + Repeat(c, n - 1)
  }

  function Indent(cfg: Config, depth: nat): string {
    if cfg.tabs then Repeat('\t', depth) else Repeat(' ', depth * cfg.spaces)
  }

  /** Line break before an element or a closing bracket. */
  function Break(cfg: Config, depth: nat): string {
    if cfg.pretty then "\n" + Indent(cfg, depth) else ""
  }

  function AfterColon(cfg: Config): string {
    if cfg.pretty then " " else ""
  }

  function TreeText(v: Tree, cfg: Config, level: nat, t: string): string
    requires Writable(v)
    decreases v, 0
  {
    match v
    case Null => "null" + t
    case Bool(b) => (if b then "true" else "false") + t
    case Long(n) => IntText(n) + t
    case Str(s) => QuotedText(s, t)
    case Array(items) => ['['] + (if items.NoItems? then [']'] + t else ItemsText(items, cfg, level, t))
    case Object(members) => ['{'] + (if members.NoMembers? then ['}'] + t else MembersText(members, cfg, level, t))
  }

  function ItemsText(items: Items, cfg: Config, level: nat, t: string): string
    requires items.Item? && WritableItems(items)
    decreases items, 0
  {
    Break(cfg, level + 1) + TreeText(items.value, cfg, level + 1, ItemsTail(items.rest, cfg, level, t))
  }

  function ItemsTail(items: Items, cfg: Config, level: nat, t: string): string
    requires WritableItems(items)
    decreases items, 1
  {
    if items.NoItems? then Break(cfg, level) + ([']'] + t) else [','] + ItemsText(items, cfg, level, t)
  }

  function MembersText(ms: Members, cfg: Config, level: nat, t: string): string
    requires ms.Member? && WritableMembers(ms)
    decreases ms, 1
  {
    Break(cfg, level + 1) + QuotedText(ms.name, FieldText(ms, cfg, level, t))
  }

  /** From the colon on. */
  function FieldText(ms: Members, cfg: Config, level: nat, t: string): string
    requires ms.Member? && WritableMembers(ms)
    decreases ms, 0
  {
    [':'] + (AfterColon(cfg) + TreeText(ms.value, cfg, level + 1, MembersTail(ms.rest, cfg, level, t)))
  }

  function MembersTail(ms: Members, cfg: Config, level: nat, t: string): string
    requires WritableMembers(ms)
    decreases ms, 2
  {
    if ms.NoMembers? then Break(cfg, level) + (['}'] + t) else [','] + MembersText(ms, cfg, level, t)
  }

  // ----- what the writer can write and the reader returns exactly

  predicate NulFree(s: string) {
    s == "" || (s[0] != NUL && NulFree(s[1..]))
  }

  predicate Writable(v: Tree) {
    match v
    case Null => true
    case Bool(_) => true
    case Long(n) => -MAX_LARGEST_INT - 1 <= n <= MAX_LARGEST_INT
    case Double(_) => false
    case Str(s) => NulFree(s)
    case Array(items) => WritableItems(items)
    case Object(ms) => WritableMembers(ms)
  }

  predicate WritableItems(items: Items) {
    items.Item? ==> Writable(items.value) && WritableItems(items.rest)
  }

  predicate WritableMembers(ms: Members) {
    ms.Member? ==> NulFree(ms.name) && Writable(ms.value) && WritableMembers(ms.rest)
  }

  function Max(a: nat, b: nat): nat {
    if a < b then b else a
  }

  /** Containers nested in one another, the outermost included. */
  function Depth(v: Tree): nat {
    match v
    case Array(items) => 1 + ItemsDepth(items)
    case Object(ms) => 1 + MembersDepth(ms)
    case _ => 0
  }

  function ItemsDepth(items: Items): nat {
    if items.NoItems? then 0 else Max(Depth(items.value), ItemsDepth(items.rest))
  }

  function MembersDepth(ms: Members): nat {
    if ms.NoMembers? then 0 else Max(Depth(ms.value), MembersDepth(ms.rest))
  }

  // ----- strings

  lemma LowerHexValue(d: nat)
    requires d < 16
    ensures HexValue(LowerHexDigit(d)) == Some(d) && LowerHexDigit(d) != NUL
  {
  }

  lemma {:induction false} LongEnough(s: string, k: nat)
    requires |s| >= k && forall i :: 0 <= i < k ==> s[i] != NUL
    ensures !Short(s, k)
  {
    if k > 0 {
      LongEnough(s[1..], k - 1);
    }
  }

  lemma ControlEscape(c: char, t: string)
    requires IsAsciiControl(c)
    ensures var h := ['0', '0', LowerHexDigit(c as int / 16), LowerHexDigit(c as int % 16)] + t;
            !Short(h, 4) && EscapeSequence(h) == Some(c as nat)
  {
    hide HexValue, LowerHexDigit;
    LowerHexValue(c as int / 16);
    LowerHexValue(c as int % 16);
    assert HexValue('0') == Some(0) by { LowerHexDigitZero(); }
    var h := ['0', '0', LowerHexDigit(c as int / 16), LowerHexDigit(c as int % 16)] + t;
    LongEnough(h, 4);
  }

  lemma LowerHexDigitZero()
    ensures HexValue('0') == Some(0)
  {
  }

  /** The reader takes an escaped character for the character itself. */
  lemma QuotedEscaped(c: char, t: string)
    requires c != NUL
    ensures Quoted(Escaped(c) + t, 0) == Prefixed([c], Quoted(t, 0))
  {
    hide Quoted;
    if |Escaped(c)| == 6 {
      QuotedControl(c, t);
    } else if |Escaped(c)| == 2 {
      QuotedPair(c, t);
    } else {
      QuotedPlain(c, t);
    }
  }

  lemma QuotedPlain(c: char, t: string)
    requires c != NUL && Escaped(c) == [c]
    ensures Quoted([c] + t, 0) == Prefixed([c], Quoted(t, 0))
  {
    assert ([c] + t)[1..] == t;
  }

  lemma QuotedPair(c: char, t: string)
    requires |Escaped(c)| == 2
    ensures Quoted(Escaped(c) + t, 0) == Prefixed([c], Quoted(t, 0))
  {
    hide LowerHexDigit;
    assert (Escaped(c) + t)[1..][1..] == t;
  }

  lemma QuotedControl(c: char, t: string)
    requires |Escaped(c)| == 6
    ensures Quoted(Escaped(c) + t, 0) == Prefixed([c], Quoted(t, 0))
  {
    hide EscapeSequence, LowerHexDigit;
    ControlEscape(c, t);
    var h := ['0', '0', LowerHexDigit(c as int / 16), LowerHexDigit(c as int % 16)] + t;
    assert (Escaped(c) + t)[1..][1..] == h;
    assert h[4..] == t;
  }

  lemma {:induction false} QuotedReads(s: string, t: string)
    requires NulFree(s)
    ensures Quoted(EscapedText(s, ['"'] + t), 0) == Ok(s, t)
  {
    if s == "" {
      assert (['"'] + t)[1..] == t;
    } else {
      hide Quoted, Escaped;
      QuotedEscaped(s[0], EscapedText(s[1..], ['"'] + t));
      QuotedReads(s[1..], t);
      assert [s[0]] + s[1..] == s;
    }
  }

  lemma {:induction false} NulFreeCString(s: string)
    requires NulFree(s)
    ensures CString(s) == s
  {
    if s != "" {
      NulFreeCString(s[1..]);
      assert [s[0]] + s[1..] == s;
    }
  }

  // ----- spaces

  lemma {:induction false} SkipRepeat(c: char, n: nat, t: string)
    requires IsSpace(c)
    ensures SkipSpaces(Repeat(c, n) + t) == SkipSpaces(t)
  {
    hide SkipSpaces;
    if n == 0 {
      assert Repeat(c, n) + t == t;
    } else {
      assert Repeat(c, n) + t == [c] + (Repeat(c, n - 1) + t);
      SkipOne(c, Repeat(c, n - 1) + t);
      SkipRepeat(c, n - 1, t);
    }
  }

  lemma SkipOne(c: char, t: string)
    requires IsSpace(c)
    ensures SkipSpaces([c] + t) == SkipSpaces(t)
  {
    assert ([c] + t)[1..] == t;
  }

  lemma SkipNone(s: string)
    requires s != "" && !IsSpace(s[0])
    ensures SkipSpaces(s) == s
  {
  }

  lemma SkipBreak(cfg: Config, depth: nat, t: string)
    ensures SkipSpaces(Break(cfg, depth) + t) == SkipSpaces(t)
    ensures Ends(t) ==> Ends(Break(cfg, depth) + t)
  {
    if cfg.pretty {
      var i := Indent(cfg, depth);
      assert ("\n" + i + t)[1..] == i + t;
      if cfg.tabs { SkipRepeat('\t', depth, t); } else { SkipRepeat(' ', depth * cfg.spaces, t); }
    } else {
      assert "" + t == t;
    }
  }

  lemma SkipAfterColon(cfg: Config, t: string)
    ensures SkipSpaces(AfterColon(cfg) + t) == SkipSpaces(t)
  {
    if cfg.pretty {
      assert (" " + t)[1..] == t;
    } else {
      assert "" + t == t;
    }
  }

  // ----- unquoted values

  /** Text that ends an unquoted value. */
  predicate Ends(t: string) {
    t != "" && EndsValue(t[0])
  }

  predicate Plain(s: string) {
    s == "" || (s[0] != NUL && !EndsValue(s[0]) && Plain(s[1..]))
  }

  lemma {:induction false} UnquotedReads(s: string, t: string)
    requires Plain(s) && Ends(t)
    ensures Unquoted(s + t) == Ok(s, t)
  {
    if s == "" {
      assert s + t == t;
    } else {
      assert (s + t)[1..] == s[1..] + t;
      UnquotedReads(s[1..], t);
      assert [s[0]] + s[1..] == s;
    }
  }

  lemma {:induction false} LettersPlain(s: string)
    requires forall i :: 0 <= i < |s| ==> 'a' <= s[i] <= 'z'
    ensures Plain(s)
  {
    if s != "" {
      LettersPlain(s[1..]);
    }
  }

  lemma {:induction false} DigitsPlain(s: string)
    requires AllDigits(s)
    ensures Plain(s)
  {
    if s != "" {
      assert IsDigit(s[0]);
      DigitsPlain(s[1..]);
    }
  }

  lemma LongReads(n: int)
    requires -MAX_LARGEST_INT - 1 <= n <= MAX_LARGEST_INT
    ensures var s := IntText(n);
            s != "" && Plain(s) && s[0] != '"' && s[0] != '{' && s[0] != '[' && ParseLong(s) == Some(n)
            && s != "true" && s != "false" && s != "null"
  {
    hide Digits, DigitsValue;
    var m: nat := if n < 0 then -n else n;
    DigitsInverse(m);
    DigitsPlain(Digits(m));
    assert IsDigit(Digits(m)[0]);
    if n < 0 {
      assert ("-" + Digits(m))[1..] == Digits(m);
    }
  }

  /** An unquoted value with its first character read already. */
  lemma ScalarReads(s: string, t: string, v: Tree, level: nat, d: ToDouble)
    requires s != "" && Plain(s) && s[0] != '"' && s[0] != '{' && s[0] != '[' && Ends(t)
    requires Scalar(s, d) == Some(v)
    ensures Starts(s + t) && Value((s + t)[0], (s + t)[1..], level, d) == Ok(v, t)
  {
    hide Scalar;
    UnquotedReads(s[1..], t);
    assert (s + t)[1..] == s[1..] + t;
    assert [s[0]] + s[1..] == s;
  }

  /** Text a value can start with. */
  predicate Starts(s: string) {
    s != "" && !EndsValue(s[0]) && s[0] != NUL
  }

  // ----- the round trip

  /** The result is the value, or the nesting limit is reported. */
  predicate Reads<T(==)>(r: Result<T>, v: T, t: string, fits: bool) {
    if fits then r == Ok(v, t) else r.Err? && r.reason == ExceededNestingLimit
  }

  lemma LeafReads(v: Tree, cfg: Config, lvl: nat, t: string, level: nat, d: ToDouble)
    requires Writable(v) && Ends(t) && !v.Array? && !v.Object?
    ensures var s := TreeText(v, cfg, lvl, t);
            Starts(s) && Value(s[0], s[1..], level, d) == Ok(v, t)
  {
    hide IntText, ParseLong;
    match v {
      case Null =>
        LettersPlain("null");
        ScalarReads("null", t, v, level, d);
      case Bool(b) =>
        var s := if b then "true" else "false";
        LettersPlain(s);
        ScalarReads(s, t, v, level, d);
      case Long(n) =>
        LongReads(n);
        ScalarReads(IntText(n), t, v, level, d);
      case Str(s) =>
        QuotedReads(s, t);
        NulFreeCString(s);
        assert QuotedText(s, t)[1..] == EscapedText(s, ['"'] + t);
    }
  }

  lemma {:induction false} ValueReads(v: Tree, cfg: Config, lvl: nat, t: string, level: nat, d: ToDouble)
    requires Writable(v) && Ends(t) && level <= NESTING_LIMIT
    ensures var s := TreeText(v, cfg, lvl, t);
            Starts(s) && Reads(Value(s[0], s[1..], level, d), v, t, level + Depth(v) <= NESTING_LIMIT)
    decreases v, 0
  {
    hide ObjectBody, ArrayBody, Quoted, Unquoted, ItemsText, MembersText;
    if v.Array? || v.Object? {
      if level < NESTING_LIMIT {
        if v.Array? { ArrayReads(v.items, cfg, lvl, t, level + 1, d); } else { ObjectReads(v.members, cfg, lvl, t, level + 1, d); }
      }
    } else {
      LeafReads(v, cfg, lvl, t, level, d);
    }
  }

  lemma {:induction false} ArrayReads(items: Items, cfg: Config, lvl: nat, t: string, level: nat, d: ToDouble)
    requires WritableItems(items) && level <= NESTING_LIMIT
    ensures var s := TreeText(Array(items), cfg, lvl, t);
            Reads(ArrayBody(s[1..], level, d), Array(items), t, level + ItemsDepth(items) <= NESTING_LIMIT)
    decreases items, 2
  {
    hide ItemsFrom, ItemsText;
    var s := TreeText(Array(items), cfg, lvl, t);
    if items.NoItems? {
      assert s[1..] == [']'] + t;
      assert ([']'] + t)[1..] == t;
    } else {
      assert s[1..] == ItemsText(items, cfg, lvl, t);
      ItemsReads(items, cfg, lvl, t, level, d);
    }
  }

  lemma {:induction false} ItemsReads(items: Items, cfg: Config, lvl: nat, t: string, level: nat, d: ToDouble)
    requires items.Item? && WritableItems(items) && level <= NESTING_LIMIT
    ensures var s := SkipSpaces(ItemsText(items, cfg, lvl, t));
            Starts(s) && Reads(ItemsFrom(s, level, d), items, t, level + ItemsDepth(items) <= NESTING_LIMIT)
    decreases items, 1
  {
    hide Value, TreeText, Break;
    var tail := ItemsTail(items.rest, cfg, lvl, t);
    var s := TreeText(items.value, cfg, lvl + 1, tail);
    ItemsTailReads(items.rest, cfg, lvl, t, level, d);
    ValueReads(items.value, cfg, lvl + 1, tail, level, d);
    SkipBreak(cfg, lvl + 1, s);
    assert SkipSpaces(s) == s;
  }

  /** A tail starts, after spaces, with the closing bracket or with a comma and the other items. */
  lemma {:induction false} ItemsTailReads(items: Items, cfg: Config, lvl: nat, t: string, level: nat, d: ToDouble)
    requires WritableItems(items) && level <= NESTING_LIMIT
    ensures var s := ItemsTail(items, cfg, lvl, t);
            Ends(s) && var c := SkipSpaces(s);
            if items.NoItems? then c == [']'] + t && Peek(c) == ']' && Drop(c) == t
            else Peek(c) == ',' && Reads(ItemsFrom(SkipSpaces(Drop(c)), level, d), items, t, level + ItemsDepth(items) <= NESTING_LIMIT)
    decreases items, 3
  {
    hide ItemsFrom, ItemsText, Break;
    if items.NoItems? {
      SkipBreak(cfg, lvl, [']'] + t);
      assert ([']'] + t)[1..] == t;
    } else {
      var s := ItemsText(items, cfg, lvl, t);
      ItemsReads(items, cfg, lvl, t, level, d);
      assert ([','] + s)[1..] == s;
    }
  }

  lemma {:induction false} ObjectReads(ms: Members, cfg: Config, lvl: nat, t: string, level: nat, d: ToDouble)
    requires WritableMembers(ms) && level <= NESTING_LIMIT
    ensures var s := TreeText(Object(ms), cfg, lvl, t);
            Reads(ObjectBody(s[1..], level, d), Object(ms), t, level + MembersDepth(ms) <= NESTING_LIMIT)
    decreases ms, 2
  {
    hide MembersFrom, MembersText;
    var s := TreeText(Object(ms), cfg, lvl, t);
    if ms.NoMembers? {
      assert s[1..] == ['}'] + t;
      assert (['}'] + t)[1..] == t;
    } else {
      assert s[1..] == MembersText(ms, cfg, lvl, t);
      MembersReads(ms, cfg, lvl, t, level, d);
    }
  }

  lemma {:induction false} MembersReads(ms: Members, cfg: Config, lvl: nat, t: string, level: nat, d: ToDouble)
    requires ms.Member? && WritableMembers(ms) && level <= NESTING_LIMIT
    ensures var s := SkipSpaces(MembersText(ms, cfg, lvl, t));
            Starts(s) && Reads(MembersFrom(s, level, d), ms, t, level + MembersDepth(ms) <= NESTING_LIMIT)
    decreases ms, 1
  {
    hide Value, TreeText, Break, Quoted, EscapedText, SkipSpaces, CString, NulFree;
    var tail := MembersTail(ms.rest, cfg, lvl, t);
    var field := FieldText(ms, cfg, lvl, t);
    var v := TreeText(ms.value, cfg, lvl + 1, tail);
    var s := QuotedText(ms.name, field);
    SkipBreak(cfg, lvl + 1, s);
    SkipNone(s);
    assert s[1..] == EscapedText(ms.name, ['"'] + field);
    QuotedReads(ms.name, field);
    NulFreeCString(ms.name);
    SkipNone(field);
    assert Drop(field) == AfterColon(cfg) + v;
    SkipAfterColon(cfg, v);
    MembersTailReads(ms.rest, cfg, lvl, t, level, d);
    ValueReads(ms.value, cfg, lvl + 1, tail, level, d);
    SkipNone(v);
  }

  lemma {:induction false} MembersTailReads(ms: Members, cfg: Config, lvl: nat, t: string, level: nat, d: ToDouble)
    requires WritableMembers(ms) && level <= NESTING_LIMIT
    ensures var s := MembersTail(ms, cfg, lvl, t);
            Ends(s) && var c := SkipSpaces(s);
            if ms.NoMembers? then c == ['}'] + t && Peek(c) == '}' && Drop(c) == t
            else Peek(c) == ',' && Reads(MembersFrom(SkipSpaces(Drop(c)), level, d), ms, t, level + MembersDepth(ms) <= NESTING_LIMIT)
    decreases ms, 3
  {
    hide MembersFrom, MembersText, Break;
    if ms.NoMembers? {
      SkipBreak(cfg, lvl, ['}'] + t);
      assert (['}'] + t)[1..] == t;
    } else {
      var s := MembersText(ms, cfg, lvl, t);
      MembersReads(ms, cfg, lvl, t, level, d);
      assert ([','] + s)[1..] == s;
    }
  }

  /** A written document reads back as its tree, whatever follows it, exactly when it is nested no deeper than the limit. */
  lemma WriteRead(v: Tree, cfg: Config, lvl: nat, t: string, d: ToDouble)
    requires Writable(v) && (v.Array? || v.Object?)
    ensures Reads(Document(TreeText(v, cfg, lvl, t), v.Object?, d), v, t, Depth(v) <= NESTING_LIMIT + 1)
  {
    hide ObjectBody, ArrayBody, ItemsText, MembersText;
    if v.Array? { ArrayReads(v.items, cfg, lvl, t, 0, d); } else { ObjectReads(v.members, cfg, lvl, t, 0, d); }
  }

  // ----- the limit on any input

  /** A result within the limit for values at a level. */
  predicate WithinLimit(depth: nat, level: nat) {
    level + depth <= NESTING_LIMIT
  }

  lemma {:induction false} ValueWithin(c: char, s: string, level: nat, d: ToDouble)
    requires level <= NESTING_LIMIT
    ensures var r := Value(c, s, level, d); r.Ok? ==> WithinLimit(Depth(r.value), level)
    decreases |s|, 5
  {
    hide ObjectBody, ArrayBody, Quoted, Unquoted;
    if level < NESTING_LIMIT {
      if c == '{' { ObjectWithin(s, level + 1, d); } else if c == '[' { ArrayWithin(s, level + 1, d); }
    }
    ScalarDepth(c, s, d);
  }

  lemma ScalarDepth(c: char, s: string, d: ToDouble)
    ensures var u := Unquoted(s);
            u.Ok? ==> var v := Scalar(if c == NUL then u.value else [c] + u.value, d); v.Some? ==> Depth(v.value) == 0
  {
    hide Unquoted, ParseLong;
  }

  lemma {:induction false} ObjectWithin(s: string, level: nat, d: ToDouble)
    requires level <= NESTING_LIMIT
    ensures var r := ObjectBody(s, level, d); r.Ok? ==> r.value.Object? && WithinLimit(MembersDepth(r.value.members), level)
    decreases |s|, 2
  {
    hide MembersFrom;
    MembersWithin(SkipSpaces(s), level, d);
  }

  lemma {:induction false} MembersWithin(s: string, level: nat, d: ToDouble)
    requires level <= NESTING_LIMIT
    ensures var r := MembersFrom(s, level, d); r.Ok? ==> WithinLimit(MembersDepth(r.value), level)
    decreases |s|, 1
  {
    hide Value, Quoted, CString, SkipSpaces;
    if MembersFrom(s, level, d).Ok? {
      var v := SkipSpaces(Drop(SkipSpaces(Quoted(s[1..], 0).rest)));
      ValueWithin(Peek(v), Drop(v), level, d);
      var comma := SkipSpaces(Value(Peek(v), Drop(v), level, d).rest);
      if Peek(comma) == ',' { MembersWithin(SkipSpaces(Drop(comma)), level, d); }
    }
  }

  lemma {:induction false} ArrayWithin(s: string, level: nat, d: ToDouble)
    requires level <= NESTING_LIMIT
    ensures var r := ArrayBody(s, level, d); r.Ok? ==> r.value.Array? && WithinLimit(ItemsDepth(r.value.items), level)
    decreases |s|, 2
  {
    hide ItemsFrom;
    ItemsWithin(SkipSpaces(s), level, d);
  }

  lemma {:induction false} ItemsWithin(s: string, level: nat, d: ToDouble)
    requires level <= NESTING_LIMIT
    ensures var r := ItemsFrom(s, level, d); r.Ok? ==> WithinLimit(ItemsDepth(r.value), level)
    decreases |s|, 1
  {
    hide Value, SkipSpaces;
    if ItemsFrom(s, level, d).Ok? {
      ValueWithin(s[0], s[1..], level, d);
      var comma := SkipSpaces(Value(s[0], s[1..], level, d).rest);
      if Peek(comma) == ',' { ItemsWithin(SkipSpaces(Drop(comma)), level, d); }
    }
  }

  /** Whatever the text, no accepted document nests more than NESTING_LIMIT + 1 containers. */
  lemma DocumentWithin(s: string, obj: bool, d: ToDouble)
    ensures var r := Document(s, obj, d); r.Ok? ==> Depth(r.value) <= NESTING_LIMIT + 1
  {
    hide ObjectBody, ArrayBody;
    var t := SkipSpaces(s);
    if obj { ObjectWithin(Drop(t), 0, d); } else { ArrayWithin(Drop(t), 0, d); }
  }
}
