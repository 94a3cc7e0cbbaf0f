/**
 JSON text with arbitrary white space between its tokens, as a tree; and the proof that
 the Reader gets from any such text exactly the value it spells.
 */
module JsonLayout {
  import opened JsonValue
  import opened JsonNumber
  import opened JsonString
  import opened JsonReader

  /** A value with the white space around its parts. */
  datatype Layout =
    | Leaf(value: Value)
    | List(pad: string, items: Items)
    | Record(pad: string, fields: Fields)

  datatype Items = NoItems | Item(before: string, node: Layout, after: string, rest: Items)

  datatype Fields = NoFields | Field(before: string, name: string, gap: string, space: string, node: Layout, after: string, rest: Fields)

  predicate IsLeaf(v: Value) {
    match v
    case Null => true
    case Bool(_) => true
    case Str(_) => true
    case Int(n) => -MAX_LARGEST_INT - 1 <= n <= MAX_LARGEST_INT
    case UInt(n) => n <= MAX_LARGEST_UINT
    case _ => false
  }

  function LeafText(v: Value): string
    requires IsLeaf(v)
  {
    match v
    case Null => "null"
    case Bool(b) => if b then "true" else "false"
    case Str(s) => Quote(s)
    case Int(n) => IntText(n)
    case UInt(n) => IntText(n)
  }

  predicate Blank(s: string) {
    forall i :: 0 <= i < |s| ==> IsSpace(s[i])
  }

  predicate Valid(l: Layout) {
    match l
    case Leaf(v) => IsLeaf(v)
    case List(pad, items) => Blank(pad) && ValidItems(items)
    case Record(pad, fields) => Blank(pad) && ValidFields(fields)
  }

  predicate ValidItems(items: Items) {
    items.Item? ==> Blank(items.before) && Valid(items.node) && Blank(items.after) && ValidItems(items.rest)
  }

  predicate ValidFields(fields: Fields) {
    fields.Field? ==>
      && Blank(fields.before) && Blank(fields.gap) && Blank(fields.space) && Blank(fields.after)
      && Valid(fields.node) && ValidFields(fields.rest)
  }

  // ----- the text

  /** The text of a layout, followed by t. */
  function Text(l: Layout, t: string): string
    requires Valid(l)
  {
    match l
    case Leaf(v) => LeafText(v) + t
    case List(pad, items) => "[" + ItemsText(pad, items, t)
    case Record(pad, fields) => "{" + FieldsText(pad, fields, t)
  }

  /** Items and the closing bracket, followed by t. */
  function ItemsText(pad: string, items: Items, t: string): string
    requires ValidItems(items)
    decreases items, 0
  {
    match items
    case NoItems => pad + ("]" + t)
    case Item(before, node, after, rest) =>
      before + Text(node, after + ItemsTail(pad, rest, t))
  }

  /** What follows an item: a closing bracket or a comma and more items. */
  function ItemsTail(pad: string, rest: Items, t: string): string
    requires ValidItems(rest)
    decreases rest, 1
  {
    if rest.NoItems? then "]" + t else "," + ItemsText(pad, rest, t)
  }

  function FieldsText(pad: string, fields: Fields, t: string): string
    requires ValidFields(fields)
    decreases fields, 0
  {
    match fields
    case NoFields => pad + ("}" + t)
    case Field(before, name, gap, space, node, after, rest) =>
      before + (Quote(name) + (gap + (":" + (space + Text(node, after + FieldsTail(pad, rest, t))))))
  }

  function FieldsTail(pad: string, rest: Fields, t: string): string
    requires ValidFields(rest)
    decreases rest, 1
  {
    if rest.NoFields? then "}" + t else "," + FieldsText(pad, rest, t)
  }

  // ----- the value

  /** Integers are retyped by size; everything else is kept. */
  function LeafValue(v: Value): Value {
    match v
    case Int(n) => IntegerValue(n)
    case UInt(n) => IntegerValue(n)
    case _ => v
  }

  function Meaning(l: Layout): Value {
    match l
    case Leaf(v) => LeafValue(v)
    case List(_, items) => Array(AddItems(Empty, 0, items))
    case Record(_, fields) => Object(AddFields(Empty, fields))
  }

  function AddItems(m: Map, index: nat, items: Items): Map
    decreases items
  {
    match items
    case NoItems => m
    case Item(_, node, _, rest) => AddItems(Put(m, Index(index), Meaning(node)), index + 1, rest)
  }

  function AddFields(m: Map, fields: Fields): Map
    decreases fields
  {
    match fields
    case NoFields => m
    case Field(_, name, _, _, node, _, rest) => AddFields(Put(m, Name(name), Meaning(node)), rest)
  }

  function Height(l: Layout): nat {
    match l
    case Leaf(_) => 1
    case List(_, items) => 1 + ItemsHeight(items)
    case Record(_, fields) => 1 + FieldsHeight(fields)
  }

  function ItemsHeight(items: Items): nat {
    if items.NoItems? then 0 else Max(Height(items.node), ItemsHeight(items.rest))
  }

  function FieldsHeight(fields: Fields): nat {
    if fields.NoFields? then 0 else Max(Height(fields.node), FieldsHeight(fields.rest))
  }

  function Max(a: nat, b: nat): nat {
    if a < b then b else a
  }

  // ----- tokens in context

  /** Text that cannot continue a number. */
  predicate Stops(s: string) {
    s != "" ==> !IsDigit(s[0]) && s[0] != '.' && s[0] != 'e' && s[0] != 'E'
  }

  lemma {:induction false} SkipBlank(w: string, s: string)
    requires Blank(w) && (s != "" ==> !IsSpace(s[0]))
    ensures SkipSpaces(w + s) == s
  {
    if w == "" {
      assert w + s == s;
    } else {
      assert (w + s)[1..] == w[1..] + s;
      SkipBlank(w[1..], s);
    }
  }

  /** A token that starts with c and ends where t starts, behind any white space. */
  lemma LexAt(w: string, c: char, body: string, t: string, kind: Kind)
    requires Blank(w) && !IsSpace(c)
    requires LexFrom(c, body + t) == (kind, t)
    ensures Lex(w + ([c] + body + t)) == Token(kind, [c] + body, t)
  {
    hide LexFrom;
    var s := [c] + body + t;
    SkipBlank(w, s);
    assert s[1..] == body + t;
    assert s[..|s| - |t|] == [c] + body;
  }

  lemma {:induction false} SkipAllDigits(d: string, t: string)
    requires AllDigits(d) && (t != "" ==> !IsDigit(t[0]))
    ensures SkipDigits(d + t) == t
  {
    if d == "" {
      assert d + t == t;
    } else {
      assert (d + t)[1..] == d[1..] + t;
      SkipAllDigits(d[1..], t);
    }
  }

  lemma ScanInteger(d: string, t: string)
    requires AllDigits(d) && Stops(t)
    ensures ScanNumber(d + t) == t
  {
    SkipAllDigits(d, t);
  }

  lemma LexInteger(w: string, n: int, t: string)
    requires Blank(w) && Stops(t)
    ensures Lex(w + (IntText(n) + t)) == Token(NumberToken, IntText(n), t)
  {
    hide ScanNumber;
    var text := IntText(n);
    var c, body := text[0], text[1..];
    assert text == [c] + body;
    DigitsInverse(if n < 0 then -n else n);
    assert AllDigits(body) && (IsDigit(c) || c == '-');
    ScanInteger(body, t);
    LexAt(w, c, body, t, NumberToken);
  }

  lemma QuoteLexes(s: string, t: string)
    ensures LexFrom('"', EscapeAll(s) + "\"" + t) == (StringToken, t)
  {
    hide EscapeAll, ScanString;
    ScanQuoted(s, t);
    assert EscapeAll(s) + "\"" + t == EscapeAll(s) + ("\"" + t);
  }

  lemma QuoteDecodes(s: string)
    ensures Decode(Unquoted(Quote(s))) == Some(s)
  {
    hide EscapeAll, Decode;
    DecodeEscapedAll(s);
    assert Unquoted(Quote(s)) == EscapeAll(s);
  }

  lemma LexString(w: string, s: string, t: string)
    requires Blank(w)
    ensures Lex(w + (Quote(s) + t)) == Token(StringToken, Quote(s), t)
    ensures Decode(Unquoted(Quote(s))) == Some(s)
  {
    hide EscapeAll, LexFrom, Lex, Decode;
    var body := EscapeAll(s) + "\"";
    assert Quote(s) == ['"'] + body;
    QuoteLexes(s, t);
    LexAt(w, '"', body, t, StringToken);
    QuoteDecodes(s);
  }

  lemma LexLiteral(w: string, c: char, letters: string, t: string, kind: Kind)
    requires Blank(w)
    requires (c, letters, kind) == ('t', "rue", TrueToken) || (c, letters, kind) == ('f', "alse", FalseToken) || (c, letters, kind) == ('n', "ull", NullToken)
    ensures Lex(w + ([c] + letters + t)) == Token(kind, [c] + letters, t)
  {
    assert letters <= letters + t && (letters + t)[|letters|..] == t;
    LexAt(w, c, letters, t, kind);
  }

  /** Single-character tokens. */
  lemma LexMark(w: string, c: char, t: string)
    requires Blank(w)
    requires c == '{' || c == '}' || c == '[' || c == ']' || c == ',' || c == ':'
    ensures Lex(w + ([c] + t)).rest == t
    ensures Lex(w + ([c] + t)).kind
            == if c == '{' then ObjectBegin else if c == '}' then ObjectEnd else if c == '[' then ArrayBegin
               else if c == ']' then ArrayEnd else if c == ',' then Separator else Colon
  {
    assert [] + t == t;
    assert [c] + [] + t == [c] + t;
    LexAt(w, c, [], t, LexFrom(c, t).0);
  }

  lemma NotComment(s: string, f: Features)
    requires !Lex(s).kind.Comment?
    ensures NextToken(s, f) == Lex(s) == LexPastComments(s)
  {
  }

  /** Some text does not start with white space or a closing bracket. */
  predicate Opens(s: string) {
    s != "" && !IsSpace(s[0]) && s[0] != ']' && s[0] != '}'
  }

  lemma TextOpens(l: Layout, t: string)
    requires Valid(l)
    ensures Opens(Text(l, t))
  {
    if l.Leaf? && (l.value.Int? || l.value.UInt?) {
      var n: int := if l.value.Int? then l.value.num else l.value.uns;
      DigitsInverse(if n < 0 then -n else n);
    }
  }

  // ----- the Reader on laid-out text

  lemma ReadLeaf(w: string, v: Value, t: string, depth: nat, prior: Value, f: Features)
    requires Blank(w) && IsLeaf(v) && Stops(t) && depth <= STACK_LIMIT
    ensures ReadValue(w + (LeafText(v) + t), depth, prior, f) == Done(true, LeafValue(v), t, 0)
  {
    hide Lex, NextToken, LexPastComments, DecodeInteger, Decode, Quote;
    var s := w + (LeafText(v) + t);
    match v {
    case Null => assert LeafText(v) == ['n'] + "ull"; LexLiteral(w, 'n', "ull", t, NullToken);
    case Bool(true) => assert LeafText(v) == ['t'] + "rue"; LexLiteral(w, 't', "rue", t, TrueToken);
    case Bool(false) => assert LeafText(v) == ['f'] + "alse"; LexLiteral(w, 'f', "alse", t, FalseToken);
    case Str(x) => LexString(w, x, t);
    case Int(n) => LexInteger(w, n, t); PrintDecode(n);
    case UInt(n) => LexInteger(w, n, t); PrintDecode(n);
    }
    NotComment(s, f);
  }

  lemma {:induction false} ReadLayout(w: string, l: Layout, t: string, depth: nat, prior: Value, f: Features)
    requires Blank(w) && Valid(l) && Stops(t) && depth + Height(l) <= STACK_LIMIT + 1
    ensures ReadValue(w + Text(l, t), depth, prior, f) == Done(true, Meaning(l), t, 0)
    decreases l
  {
    hide Lex, NextToken, LexPastComments, Decode, Quote, Put, Find, DecodeInteger;
    var s := w + Text(l, t);
    match l
    case Leaf(v) =>
      ReadLeaf(w, v, t, depth, prior, f);
    case List(pad, items) =>
      LexMark(w, '[', ItemsText(pad, items, t));
      NotComment(s, f);
      ReadList(pad, items, t, depth, f);
    case Record(pad, fields) =>
      LexMark(w, '{', FieldsText(pad, fields, t));
      NotComment(s, f);
      if fields.NoFields? {
        LexMark(pad, '}', t);
        NotComment(FieldsText(pad, fields, t), f);
      } else {
        ReadFields(pad, fields, t, Empty, "", depth, f);
      }
  }

  lemma {:induction false} ReadList(pad: string, items: Items, t: string, depth: nat, f: Features)
    requires Blank(pad) && ValidItems(items) && depth + ItemsHeight(items) <= STACK_LIMIT
    ensures ReadArray(ItemsText(pad, items, t), depth, f) == Done(true, Array(AddItems(Empty, 0, items)), t, 0)
    decreases items, 1
  {
    hide ReadElements;
    match items
    case NoItems =>
      SkipBlank(pad, "]" + t);
      assert ("]" + t)[1..] == t;
    case Item(before, node, after, rest) =>
      var start := Text(node, after + ItemsTail(pad, rest, t));
      TextOpens(node, after + ItemsTail(pad, rest, t));
      SkipBlank(before, start);
      ReadItems("", pad, items, t, Empty, 0, depth, f);
      assert "" + start == start;
  }

  lemma {:induction false} ReadItems(w: string, pad: string, items: Items, t: string, m: Map, index: nat, depth: nat, f: Features)
    requires items.Item? && Blank(w) && ValidItems(items) && depth + ItemsHeight(items) <= STACK_LIMIT
    ensures ReadElements(w + Text(items.node, items.after + ItemsTail(pad, items.rest, t)), m, index, depth, f)
         == Done(true, Array(AddItems(m, index, items)), t, 0)
    decreases items, 0
  {
    hide Lex, NextToken, LexPastComments, ReadValue, Put;
    var tail := ItemsTail(pad, items.rest, t);
    ReadLayout(w, items.node, items.after + tail, depth + 1, Null, f);
    LexMark(items.after, tail[0], tail[1..]);
    NotComment(items.after + tail, f);
    if items.rest.Item? {
      ReadItems(items.rest.before, pad, items.rest, t, Put(m, Index(index), Meaning(items.node)), index + 1, depth, f);
    }
  }

  lemma {:induction false} ReadFields(pad: string, fields: Fields, t: string, m: Map, name: string, depth: nat, f: Features)
    requires fields.Field? && Blank(pad) && ValidFields(fields) && depth + FieldsHeight(fields) <= STACK_LIMIT
    ensures ReadMembers(FieldsText(pad, fields, t), m, name, depth, f) == Done(true, Object(AddFields(m, fields)), t, 0)
    decreases fields, 0
  {
    hide Lex, NextToken, LexPastComments, ReadValue, Put, Find, Quote, Decode;
    var s := FieldsText(pad, fields, t);
    var tail := FieldsTail(pad, fields.rest, t);
    var afterColon := fields.space + Text(fields.node, fields.after + tail);
    var afterName := fields.gap + (":" + afterColon);
    LexString(fields.before, fields.name, afterName);
    NotComment(s, f);
    LexMark(fields.gap, ':', afterColon);
    ReadLayout(fields.space, fields.node, fields.after + tail, depth + 1, Find(m, Name(fields.name)), f);
    LexMark(fields.after, tail[0], tail[1..]);
    if fields.rest.Field? {
      ReadFields(pad, fields.rest, t, Put(m, Name(fields.name), Meaning(fields.node)), fields.name, depth, f);
    }
  }

  // ----- the stack limit

  lemma {:induction false} LayoutTooDeep(w: string, l: Layout, t: string, depth: nat, prior: Value, f: Features)
    requires Blank(w) && Valid(l) && Stops(t) && depth + Height(l) > STACK_LIMIT + 1
    ensures ReadValue(w + Text(l, t), depth, prior, f) == Throw
    decreases l
  {
    hide Lex, NextToken, LexPastComments, Decode, Quote, Put, Find, DecodeInteger;
    var s := w + Text(l, t);
    match l
    case Leaf(v) =>
    case List(pad, items) =>
      LexMark(w, '[', ItemsText(pad, items, t));
      NotComment(s, f);
      if depth <= STACK_LIMIT {
        var start := Text(items.node, items.after + ItemsTail(pad, items.rest, t));
        TextOpens(items.node, items.after + ItemsTail(pad, items.rest, t));
        SkipBlank(items.before, start);
        ItemsTooDeep("", pad, items, t, Empty, 0, depth, f);
        assert "" + start == start;
      }
    case Record(pad, fields) =>
      LexMark(w, '{', FieldsText(pad, fields, t));
      NotComment(s, f);
      if depth <= STACK_LIMIT {
        FieldsTooDeep(pad, fields, t, Empty, "", depth, f);
      }
  }

  lemma {:induction false} ItemsTooDeep(w: string, pad: string, items: Items, t: string, m: Map, index: nat, depth: nat, f: Features)
    requires items.Item? && Blank(w) && ValidItems(items) && depth + ItemsHeight(items) > STACK_LIMIT
    ensures ReadElements(w + Text(items.node, items.after + ItemsTail(pad, items.rest, t)), m, index, depth, f) == Throw
    decreases items, 0
  {
    hide Lex, NextToken, LexPastComments, ReadValue, Put;
    var tail := ItemsTail(pad, items.rest, t);
    if depth + Height(items.node) > STACK_LIMIT {
      LayoutTooDeep(w, items.node, items.after + tail, depth + 1, Null, f);
    } else {
      ReadLayout(w, items.node, items.after + tail, depth + 1, Null, f);
      LexMark(items.after, tail[0], tail[1..]);
      NotComment(items.after + tail, f);
      ItemsTooDeep(items.rest.before, pad, items.rest, t, Put(m, Index(index), Meaning(items.node)), index + 1, depth, f);
    }
  }

  lemma {:induction false} FieldsTooDeep(pad: string, fields: Fields, t: string, m: Map, name: string, depth: nat, f: Features)
    requires fields.Field? && ValidFields(fields) && depth + FieldsHeight(fields) > STACK_LIMIT
    ensures ReadMembers(FieldsText(pad, fields, t), m, name, depth, f) == Throw
    decreases fields, 0
  {
    hide Lex, NextToken, LexPastComments, ReadValue, Put, Find, Quote, Decode;
    var s := FieldsText(pad, fields, t);
    var tail := FieldsTail(pad, fields.rest, t);
    var afterColon := fields.space + Text(fields.node, fields.after + tail);
    LexString(fields.before, fields.name, fields.gap + (":" + afterColon));
    NotComment(s, f);
    LexMark(fields.gap, ':', afterColon);
    if depth + Height(fields.node) > STACK_LIMIT {
      LayoutTooDeep(fields.space, fields.node, fields.after + tail, depth + 1, Find(m, Name(fields.name)), f);
    } else {
      ReadLayout(fields.space, fields.node, fields.after + tail, depth + 1, Find(m, Name(fields.name)), f);
      LexMark(fields.after, tail[0], tail[1..]);
      FieldsTooDeep(pad, fields.rest, t, Put(m, Name(fields.name), Meaning(fields.node)), fields.name, depth, f);
    }
  }

  /** Every document laid out with any white space reads as the value it spells, with no error, unless it is too deep. */
  lemma ParseLayout(w: string, l: Layout, t: string, root: Value, f: Features)
    requires Blank(w) && Valid(l) && Blank(t)
    requires f.strictRoot ==> !l.Leaf?
    ensures Parse(w + Text(l, t), root, f)
         == if Height(l) <= STACK_LIMIT then Some(Parsed(true, Meaning(l), 0)) else None
  {
    if Height(l) <= STACK_LIMIT {
      ReadLayout(w, l, t, 1, root, f);
    } else {
      LayoutTooDeep(w, l, t, 1, root, f);
    }
  }

  // ----- white space does not matter

  function Strip(l: Layout): Layout {
    match l
    case Leaf(_) => l
    case List(_, items) => List("", StripItems(items))
    case Record(_, fields) => Record("", StripFields(fields))
  }

  function StripItems(items: Items): Items {
    if items.NoItems? then NoItems else Item("", Strip(items.node), "", StripItems(items.rest))
  }

  function StripFields(fields: Fields): Fields {
    if fields.NoFields? then NoFields
    else Field("", fields.name, "", "", Strip(fields.node), "", StripFields(fields.rest))
  }

  lemma {:induction false} StripKeeps(l: Layout)
    ensures Meaning(Strip(l)) == Meaning(l) && Height(Strip(l)) == Height(l)
  {
    match l
    case Leaf(_) =>
    case List(_, items) => StripItemsKeeps(Empty, 0, items);
    case Record(_, fields) => StripFieldsKeeps(Empty, fields);
  }

  lemma {:induction false} StripItemsKeeps(m: Map, index: nat, items: Items)
    ensures AddItems(m, index, StripItems(items)) == AddItems(m, index, items)
    ensures ItemsHeight(StripItems(items)) == ItemsHeight(items)
    decreases items
  {
    if items.Item? {
      StripKeeps(items.node);
      StripItemsKeeps(Put(m, Index(index), Meaning(items.node)), index + 1, items.rest);
    }
  }

  lemma {:induction false} StripFieldsKeeps(m: Map, fields: Fields)
    ensures AddFields(m, StripFields(fields)) == AddFields(m, fields)
    ensures FieldsHeight(StripFields(fields)) == FieldsHeight(fields)
    decreases fields
  {
    if fields.Field? {
      StripKeeps(fields.node);
      StripFieldsKeeps(Put(m, Name(fields.name), Meaning(fields.node)), fields.rest);
    }
  }

  // ----- text in pieces

  lemma {:induction false} TextAppend(l: Layout, t: string, u: string)
    requires Valid(l)
    ensures Text(l, t + u) == Text(l, t) + u
  {
    hide ItemsText, FieldsText, LeafText;
    match l
    case Leaf(v) => Join(LeafText(v), t, u);
    case List(pad, items) =>
      ItemsAppend(pad, items, t, u);
      Join("[", ItemsText(pad, items, t), u);
    case Record(pad, fields) =>
      FieldsAppend(pad, fields, t, u);
      Join("{", FieldsText(pad, fields, t), u);
  }

  lemma TextSplit(l: Layout, t: string)
    requires Valid(l)
    ensures Text(l, t) == Text(l, "") + t
  {
    TextAppend(l, "", t);
    assert "" + t == t;
  }

  lemma {:induction false} ItemsAppend(pad: string, items: Items, t: string, u: string)
    requires ValidItems(items)
    ensures ItemsText(pad, items, t + u) == ItemsText(pad, items, t) + u
    decreases items, 0
  {
    if items.NoItems? {
      assert pad + ("]" + (t + u)) == (pad + ("]" + t)) + u;
    } else {
      hide Text, ItemsTail;
      var tail := ItemsTail(pad, items.rest, t);
      ItemsTailAppend(pad, items.rest, t, u);
      Join(items.after, tail, u);
      TextAppend(items.node, items.after + tail, u);
      Join(items.before, Text(items.node, items.after + tail), u);
    }
  }

  lemma {:induction false} ItemsTailAppend(pad: string, rest: Items, t: string, u: string)
    requires ValidItems(rest)
    ensures ItemsTail(pad, rest, t + u) == ItemsTail(pad, rest, t) + u
    decreases rest, 1
  {
    hide ItemsText;
    if rest.NoItems? {
      assert "]" + (t + u) == ("]" + t) + u;
    } else {
      ItemsAppend(pad, rest, t, u);
      Join(",", ItemsText(pad, rest, t), u);
    }
  }

  lemma {:induction false} FieldsAppend(pad: string, fields: Fields, t: string, u: string)
    requires ValidFields(fields)
    ensures FieldsText(pad, fields, t + u) == FieldsText(pad, fields, t) + u
    decreases fields, 0
  {
    if fields.NoFields? {
      assert pad + ("}" + (t + u)) == (pad + ("}" + t)) + u;
    } else {
      hide Quote, Text, FieldsTail;
      var tail := FieldsTail(pad, fields.rest, t);
      FieldsTailAppend(pad, fields.rest, t, u);
      Join(fields.after, tail, u);
      TextAppend(fields.node, fields.after + tail, u);
      FieldJoin(fields, Text(fields.node, fields.after + tail), u);
    }
  }

  lemma {:induction false} FieldsTailAppend(pad: string, rest: Fields, t: string, u: string)
    requires ValidFields(rest)
    ensures FieldsTail(pad, rest, t + u) == FieldsTail(pad, rest, t) + u
    decreases rest, 1
  {
    hide FieldsText;
    if rest.NoFields? {
      assert "}" + (t + u) == ("}" + t) + u;
    } else {
      FieldsAppend(pad, rest, t, u);
      Join(",", FieldsText(pad, rest, t), u);
    }
  }

  lemma Join(a: string, b: string, c: string)
    ensures a + (b + c) == (a + b) + c
  {
  }

  lemma FieldJoin(f: Fields, v: string, u: string)
    requires f.Field?
    ensures f.before + (Quote(f.name) + (f.gap + (":" + (f.space + (v + u)))))
         == (f.before + (Quote(f.name) + (f.gap + (":" + (f.space + v))))) + u
  {
    hide Quote;
  }
}
