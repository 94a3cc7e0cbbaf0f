/**
 Which texts jsoncpp's Reader accepts: a grammar over its tokens, for every setting of the
 features, and the proof that the Reader accepts a document exactly when the grammar
 derives a prefix of it with a tree that is not too deep, and then returns what the tree
 means.  No text has two trees.
 */
module JsonGrammar {
  import opened JsonValue
  import opened JsonNumber
  import opened JsonString
  import opened JsonReader
  import JsonLayout

  /** A derivation; `Dropped` is a null left out before a comma or a closing bracket. */
  datatype Node = Word(value: Value) | Dropped | List(items: Nodes) | Record(pairs: Pairs)

  datatype Nodes = NoNodes | Nodes(head: Node, rest: Nodes)

  /** Members; `more` says that a separator follows the value. */
  datatype Pairs = NoPairs | Pair(name: string, node: Node, more: bool, rest: Pairs)

  // ----- the grammar

  /** The value of a token that is a whole value. */
  function WordOf(t: Token, f: Features): Option<Value> {
    match t.kind
    case NumberToken => NumberOf(t.text, f)
    case StringToken =>
      var d := Decode(Unquoted(t.text));
      if d.Some? then Some(Str(d.value)) else None
    case TrueToken => Some(Bool(true))
    case FalseToken => Some(Bool(false))
    case NullToken => Some(Null)
    case _ => None
  }

  /** The text behind n, if the tokens at the start of s are those of n. */
  function After(n: Node, s: string, f: Features): Option<string>
    decreases n
  {
    var t := NextToken(s, f);
    match n
    case Word(v) => if WordOf(t, f) == Some(v) then Some(t.rest) else None
    case Dropped => if f.allowDroppedNull && IsMark(t.kind) then Some(t.text + t.rest) else None
    case List(items) => if t.kind.ArrayBegin? then AfterBracket(items, SkipSpaces(t.rest), f) else None
    case Record(pairs) => if t.kind.ObjectBegin? then AfterPairs(pairs, "", t.rest, f) else None
  }

  /** An array is empty exactly when its closing bracket comes next, with nothing but white space before it. */
  function AfterBracket(items: Nodes, s: string, f: Features): Option<string>
    decreases items, 1
  {
    if StartsWith(s, ']') then (if items.NoNodes? then Some(s[1..]) else None)
    else if items.Nodes? then AfterNodes(items, s, f)
    else None
  }

  /** Elements with commas between them and a closing bracket. */
  function AfterNodes(items: Nodes, s: string, f: Features): Option<string>
    requires items.Nodes?
    decreases items, 0
  {
    match After(items.head, s, f)
    case None => None
    case Some(u) =>
      var t := LexPastComments(u);
      if items.rest.NoNodes? then (if t.kind.ArrayEnd? then Some(t.rest) else None)
      else if t.kind.Separator? then AfterNodes(items.rest, t.rest, f)
      else None
  }

  /** Members and a closing brace; before the brace there is no separator, unless the last name is empty. */
  function AfterPairs(pairs: Pairs, last: string, s: string, f: Features): Option<string>
    decreases pairs
  {
    var t := LexPastComments(s);
    match pairs
    case NoPairs => if t.kind.ObjectEnd? && last == "" then Some(t.rest) else None
    case Pair(name, node, more, rest) =>
      if t.kind.StringToken? && Decode(Unquoted(t.text)) == Some(name) && Lex(t.rest).kind.Colon?
      then
        match After(node, Lex(t.rest).rest, f)
        case None => None
        case Some(u) =>
          if more then (if Separates(u) then AfterPairs(rest, name, LexPastComments(u).rest, f) else None)
          else if rest.NoPairs? && LexPastComments(u).kind.ObjectEnd? then Some(LexPastComments(u).rest)
          else None
      else None
  }

  /** A comma, or a comment and then any token at all, except a closing brace. */
  predicate Separates(s: string) {
    (Lex(s).kind.Separator? || Lex(s).kind.Comment?) && !LexPastComments(s).kind.ObjectEnd?
  }

  // ----- what a tree means

  function Meaning(n: Node): Value {
    match n
    case Word(v) => v
    case Dropped => Null
    case List(items) => Array(WithNodes(Empty, 0, items))
    case Record(pairs) => Object(WithPairs(Empty, pairs))
  }

  function WithNodes(m: Map, index: nat, items: Nodes): Map
    decreases items
  {
    match items
    case NoNodes => m
    case Nodes(n, rest) => WithNodes(Put(m, Index(index), Meaning(n)), index + 1, rest)
  }

  function WithPairs(m: Map, pairs: Pairs): Map
    decreases pairs
  {
    match pairs
    case NoPairs => m
    case Pair(name, n, _, rest) => WithPairs(Put(m, Name(name), Meaning(n)), rest)
  }

  function Height(n: Node): nat {
    match n
    case Word(_) => 1
    case Dropped => 1
    case List(items) => 1 + NodesHeight(items)
    case Record(pairs) => 1 + PairsHeight(pairs)
  }

  function NodesHeight(items: Nodes): nat {
    if items.NoNodes? then 0 else Higher(Height(items.head), NodesHeight(items.rest))
  }

  function PairsHeight(pairs: Pairs): nat {
    if pairs.NoPairs? then 0 else Higher(Height(pairs.node), PairsHeight(pairs.rest))
  }

  function Higher(a: nat, b: nat): nat {
    if a < b then b else a
  }

  // ----- what is accepted is derived

  /** A derivation of what was read. */
  predicate Derives(n: Node, s: string, depth: nat, r: Outcome, f: Features) {
    r.Done? && After(n, s, f) == Some(r.rest) && Meaning(n) == r.value && depth + Height(n) <= STACK_LIMIT + 1
  }

  lemma {:induction false} ValueDerived(s: string, depth: nat, prior: Value, f: Features) returns (n: Node)
    requires ReadValue(s, depth, prior, f).Done? && ReadValue(s, depth, prior, f).ok
    ensures Derives(n, s, depth, ReadValue(s, depth, prior, f), f)
    decreases |s|, 0
  {
    hide NextToken, LexPastComments, ReadMembers, ReadElements, AfterPairs, AfterNodes, Decode, NumberOf;
    var t := NextToken(s, f);
    if t.kind.ObjectBegin? {
      var pairs := MembersDerived(t.rest, Empty, "", depth, f);
      n := Record(pairs);
    } else if t.kind.ArrayBegin? {
      var start := SkipSpaces(t.rest);
      if StartsWith(start, ']') {
        n := List(NoNodes);
      } else {
        var items := ElementsDerived(start, Empty, 0, depth, f);
        assert JsonReader.ReadArray(t.rest, depth, f) == ReadElements(start, Empty, 0, depth, f);
        assert AfterBracket(items, start, f) == AfterNodes(items, start, f);
        n := List(items);
      }
    } else if WordOf(t, f).Some? {
      n := Word(WordOf(t, f).value);
    } else {
      n := Dropped;
    }
  }

  lemma {:induction false} ElementsDerived(s: string, m: Map, index: nat, depth: nat, f: Features) returns (items: Nodes)
    requires ReadElements(s, m, index, depth, f).Done? && ReadElements(s, m, index, depth, f).ok
    ensures var r := ReadElements(s, m, index, depth, f);
            && items.Nodes? && AfterNodes(items, s, f) == Some(r.rest) && r.value == Array(WithNodes(m, index, items))
            && depth + NodesHeight(items) <= STACK_LIMIT
    decreases |s|, 1
  {
    hide LexPastComments, ReadValue, After, Put, Meaning, Height;
    var n := ValueDerived(s, depth + 1, Null, f);
    var r := ReadValue(s, depth + 1, Null, f);
    var t := LexPastComments(r.rest);
    if t.kind.ArrayEnd? {
      items := Nodes(n, NoNodes);
    } else {
      var rest := ElementsDerived(t.rest, Put(m, Index(index), r.value), index + 1, depth, f);
      items := Nodes(n, rest);
    }
  }

  lemma {:induction false} MembersDerived(s: string, m: Map, name: string, depth: nat, f: Features) returns (pairs: Pairs)
    requires ReadMembers(s, m, name, depth, f).Done? && ReadMembers(s, m, name, depth, f).ok && depth <= STACK_LIMIT
    ensures var r := ReadMembers(s, m, name, depth, f);
            && AfterPairs(pairs, name, s, f) == Some(r.rest) && r.value == Object(WithPairs(m, pairs))
            && depth + PairsHeight(pairs) <= STACK_LIMIT
    decreases |s|, 1
  {
    hide LexPastComments, Lex, ReadMember, After, Put, Meaning, Height, Decode;
    var t := LexPastComments(s);
    if t.kind.ObjectEnd? && name == "" {
      pairs := NoPairs;
    } else {
      var key := Decode(Unquoted(t.text)).value;
      pairs := MemberDerived(Lex(t.rest).rest, m, key, depth, f);
    }
  }

  /** A member from its value on. */
  predicate PairAfter(pairs: Pairs, s: string, t: string, f: Features) {
    pairs.Pair? &&
    match After(pairs.node, s, f)
    case None => false
    case Some(u) =>
      if pairs.more then Separates(u) && AfterPairs(pairs.rest, pairs.name, LexPastComments(u).rest, f) == Some(t)
      else pairs.rest.NoPairs? && LexPastComments(u).kind.ObjectEnd? && LexPastComments(u).rest == t
  }

  lemma {:induction false} MemberDerived(s: string, m: Map, name: string, depth: nat, f: Features) returns (pairs: Pairs)
    requires ReadMember(s, m, name, depth, f).Done? && ReadMember(s, m, name, depth, f).ok && depth <= STACK_LIMIT
    ensures var r := ReadMember(s, m, name, depth, f);
            && PairAfter(pairs, s, r.rest, f) && pairs.name == name && r.value == Object(WithPairs(m, pairs))
            && depth + PairsHeight(pairs) <= STACK_LIMIT
    decreases |s|, 1
  {
    hide Lex, ReadMembers, ReadValue, After, Put, Meaning, Height, AfterPairs;
    var n := ValueDerived(s, depth + 1, Find(m, Name(name)), f);
    var r := ReadValue(s, depth + 1, Find(m, Name(name)), f);
    var last := LexPastComments(r.rest);
    if last.kind.ObjectEnd? {
      pairs := Pair(name, n, false, NoPairs);
    } else {
      var rest := MembersDerived(last.rest, Put(m, Name(name), r.value), name, depth, f);
      pairs := Pair(name, n, true, rest);
    }
  }

  // ----- what is derived is accepted

  /** What the Reader makes of a text that a tree derives. */
  function Accepted(n: Node, s: string, depth: nat, f: Features): Outcome
    requires After(n, s, f).Some?
  {
    if depth + Height(n) <= STACK_LIMIT + 1 then Done(true, Meaning(n), After(n, s, f).value, 0) else Throw
  }

  lemma {:induction false} DerivedReads(n: Node, s: string, depth: nat, prior: Value, f: Features)
    requires After(n, s, f).Some?
    ensures ReadValue(s, depth, prior, f) == Accepted(n, s, depth, f)
    decreases n
  {
    hide NextToken, LexPastComments, ReadMembers, ReadElements, AfterPairs, AfterNodes, Decode, NumberOf;
    var t := NextToken(s, f);
    if depth <= STACK_LIMIT {
      match n
      case Word(v) =>
      case Dropped =>
      case Record(pairs) => PairsRead(pairs, t.rest, Empty, "", depth, f);
      case List(items) =>
        var start := SkipSpaces(t.rest);
        if items.Nodes? {
          NodesRead(items, start, Empty, 0, depth, f);
          assert JsonReader.ReadArray(t.rest, depth, f) == ReadElements(start, Empty, 0, depth, f);
        }
    }
  }

  lemma {:induction false} NodesRead(items: Nodes, s: string, m: Map, index: nat, depth: nat, f: Features)
    requires items.Nodes? && AfterNodes(items, s, f).Some? && depth <= STACK_LIMIT
    ensures ReadElements(s, m, index, depth, f)
         == if depth + NodesHeight(items) <= STACK_LIMIT then Done(true, Array(WithNodes(m, index, items)), AfterNodes(items, s, f).value, 0)
            else Throw
    decreases items
  {
    hide LexPastComments, ReadValue, After, Put, Meaning, Height;
    DerivedReads(items.head, s, depth + 1, Null, f);
    if items.rest.Nodes? && depth + Height(items.head) <= STACK_LIMIT {
      var t := LexPastComments(After(items.head, s, f).value);
      NodesRead(items.rest, t.rest, Put(m, Index(index), Meaning(items.head)), index + 1, depth, f);
    }
  }

  lemma {:induction false} PairsRead(pairs: Pairs, s: string, m: Map, name: string, depth: nat, f: Features)
    requires AfterPairs(pairs, name, s, f).Some? && depth <= STACK_LIMIT
    ensures ReadMembers(s, m, name, depth, f)
         == if depth + PairsHeight(pairs) <= STACK_LIMIT then Done(true, Object(WithPairs(m, pairs)), AfterPairs(pairs, name, s, f).value, 0)
            else Throw
    decreases pairs, 1
  {
    hide LexPastComments, Lex, ReadMember, After, Put, Meaning, Height, Decode, Separates;
    if pairs.Pair? {
      PairRead(pairs, Lex(LexPastComments(s).rest).rest, AfterPairs(pairs, name, s, f).value, m, depth, f);
    }
  }

  lemma {:induction false} PairRead(pairs: Pairs, s: string, t: string, m: Map, depth: nat, f: Features)
    requires PairAfter(pairs, s, t, f) && depth <= STACK_LIMIT
    ensures ReadMember(s, m, pairs.name, depth, f)
         == if depth + PairsHeight(pairs) <= STACK_LIMIT then Done(true, Object(WithPairs(m, pairs)), t, 0) else Throw
    decreases pairs, 0
  {
    hide Lex, ReadMembers, ReadValue, After, Put, Meaning, Height, AfterPairs;
    DerivedReads(pairs.node, s, depth + 1, Find(m, Name(pairs.name)), f);
    if pairs.more && depth + Height(pairs.node) <= STACK_LIMIT {
      var u := After(pairs.node, s, f).value;
      PairsRead(pairs.rest, LexPastComments(u).rest, Put(m, Name(pairs.name), Meaning(pairs.node)), pairs.name, depth, f);
    }
  }

  // ----- no text has two trees

  lemma {:induction false} OneTree(n: Node, k: Node, s: string, f: Features)
    requires After(n, s, f).Some? && After(k, s, f).Some?
    ensures n == k
    decreases n
  {
    hide NextToken, LexPastComments, AfterPairs, AfterNodes, Decode, NumberOf;
    var t := NextToken(s, f);
    match n
    case Word(v) =>
    case Dropped =>
    case Record(pairs) => OneRecord(pairs, k.pairs, "", t.rest, f);
    case List(items) => if items.Nodes? { OneList(items, k.items, SkipSpaces(t.rest), f); }
  }

  lemma {:induction false} OneList(items: Nodes, other: Nodes, s: string, f: Features)
    requires items.Nodes? && other.Nodes? && AfterNodes(items, s, f).Some? && AfterNodes(other, s, f).Some?
    ensures items == other
    decreases items
  {
    hide LexPastComments, After;
    OneTree(items.head, other.head, s, f);
    if items.rest.Nodes? { OneList(items.rest, other.rest, LexPastComments(After(items.head, s, f).value).rest, f); }
  }

  lemma {:induction false} OneRecord(pairs: Pairs, other: Pairs, last: string, s: string, f: Features)
    requires AfterPairs(pairs, last, s, f).Some? && AfterPairs(other, last, s, f).Some?
    ensures pairs == other
    decreases pairs
  {
    hide LexPastComments, Lex, After, Decode;
    if pairs.Pair? {
      var v := Lex(LexPastComments(s).rest).rest;
      OneTree(pairs.node, other.node, v, f);
      if pairs.more { OneRecord(pairs.rest, other.rest, pairs.name, LexPastComments(After(pairs.node, v, f).value).rest, f); }
    }
  }

  // ----- documents

  /** The tree derives a prefix of the document, and the features and the stack allow it. */
  predicate Fits(n: Node, doc: string, f: Features) {
    After(n, doc, f).Some? && Height(n) <= STACK_LIMIT && (f.strictRoot ==> n.List? || n.Record?)
  }

  lemma RootKind(n: Node, s: string, f: Features)
    requires After(n, s, f).Some?
    ensures Meaning(n).Array? || Meaning(n).Object? <==> n.List? || n.Record?
  {
    hide NextToken, AfterBracket, AfterPairs, WithNodes, WithPairs, Decode;
    if n.Word? {
      var t := NextToken(s, f);
      if t.kind.NumberToken? { DecodedInteger(t.text); }
    }
  }

  lemma DecodedInteger(text: string)
    ensures var d := DecodeInteger(text); d.Integer? ==> !d.value.Array? && !d.value.Object?
  {
  }

  /** What the Reader returns for a document that starts with the text of a tree. */
  lemma DerivedParses(n: Node, doc: string, root: Value, f: Features)
    requires After(n, doc, f).Some?
    ensures Parse(doc, root, f)
         == if Height(n) > STACK_LIMIT then None
            else if f.strictRoot && !n.List? && !n.Record? then Some(Parsed(false, Meaning(n), 1))
            else Some(Parsed(true, Meaning(n), 0))
  {
    hide ReadValue, After, Meaning;
    DerivedReads(n, doc, 1, root, f);
    RootKind(n, doc, f);
  }

  /** A document is accepted exactly when it starts with a text of the grammar that is not too deep. */
  lemma AcceptsGrammar(doc: string, root: Value, f: Features)
    ensures (exists n :: Fits(n, doc, f)) <==> Parse(doc, root, f).Some? && Parse(doc, root, f).value.ok
  {
    hide ReadValue, After, Meaning;
    if Parse(doc, root, f).Some? && Parse(doc, root, f).value.ok {
      var n := ValueDerived(doc, 1, root, f);
      RootKind(n, doc, f);
      assert Fits(n, doc, f);
    }
    if n :| Fits(n, doc, f) {
      DerivedParses(n, doc, root, f);
    }
  }

  // ----- the text between the tokens

  predicate Tail(t: string, s: string) {
    |t| <= |s| && s[|s| - |t|..] == t
  }

  lemma TailStep(t: string, s: string)
    requires s != "" && Tail(t, s[1..])
    ensures Tail(t, s)
  {
  }

  lemma TailTail(u: string, t: string, s: string)
    requires Tail(u, t) && Tail(t, s)
    ensures Tail(u, s)
  {
    assert t[|t| - |u|..] == s[|s| - |u|..];
  }

  lemma {:induction false} SpacesSplit(s: string) returns (w: string)
    ensures JsonLayout.Blank(w) && s == w + SkipSpaces(s)
  {
    if s != "" && IsSpace(s[0]) {
      var v := SpacesSplit(s[1..]);
      w := [s[0]] + v;
      assert s == [s[0]] + s[1..];
    } else {
      w := "";
    }
  }

  lemma {:induction false} DigitsTail(s: string)
    ensures Tail(SkipDigits(s), s)
  {
    if s != "" && IsDigit(s[0]) {
      DigitsTail(s[1..]);
      TailStep(SkipDigits(s), s);
    }
  }

  lemma TailSelf(s: string)
    ensures Tail(s, s) && (s != "" ==> Tail(s[1..], s))
  {
  }

  lemma NumberTail(s: string)
    ensures Tail(ScanNumber(s), s)
  {
    hide SkipDigits, Tail;
    var a := SkipDigits(s);
    DigitsTail(s);
    var b := if StartsWith(a, '.') then SkipDigits(a[1..]) else a;
    if StartsWith(a, '.') {
      DigitsTail(a[1..]);
      TailStep(b, a);
      TailTail(b, a, s);
    }
    if StartsWith(b, 'e') || StartsWith(b, 'E') {
      ExponentTail(b[1..]);
      TailStep(ScanNumber(s), b);
      TailTail(ScanNumber(s), b, s);
    }
  }

  lemma ExponentTail(c: string)
    ensures Tail(SkipDigits(if StartsWith(c, '+') || StartsWith(c, '-') then c[1..] else c), c)
  {
    hide SkipDigits, Tail;
    var d := if StartsWith(c, '+') || StartsWith(c, '-') then c[1..] else c;
    TailSelf(c);
    DigitsTail(d);
    TailTail(SkipDigits(d), d, c);
  }

  lemma {:induction false} BlockTail(s: string)
    ensures Tail(ScanBlock(s).rest, s)
  {
    if |s| >= 2 && !(s[0] == '*' && s[1] == '/') {
      BlockTail(s[1..]);
      TailStep(ScanBlock(s).rest, s);
    }
  }

  lemma {:induction false} LineTail(s: string)
    ensures Tail(ScanLine(s), s)
  {
    if s != "" && s[0] != '\n' && s[0] != '\r' {
      LineTail(s[1..]);
      TailStep(ScanLine(s), s);
    }
  }

  lemma CommentTail(s: string)
    ensures Tail(ScanComment(s).rest, s)
  {
    hide ScanBlock, ScanLine;
    if s != "" {
      BlockTail(s[1..]);
      LineTail(s[1..]);
      TailStep(ScanComment(s).rest, s);
    }
  }

  lemma TokenTail(c: char, s: string)
    ensures Tail(LexFrom(c, s).1, s)
  {
    hide ScanNumber, ScanComment;
    NumberTail(s);
    CommentTail(s);
  }

  /** White space, the token and the rest make up the text. */
  lemma LexSplits(s: string) returns (gap: string)
    ensures JsonLayout.Blank(gap) && s == gap + (Lex(s).text + Lex(s).rest)
  {
    hide LexFrom, SkipSpaces;
    gap := SpacesSplit(s);
    var start := SkipSpaces(s);
    if start != "" {
      var rest := LexFrom(start[0], start[1..]).1;
      TokenTail(start[0], start[1..]);
      TailStep(rest, start);
      assert start == start[..|start| - |rest|] + rest;
    }
  }

  // ----- a separator before the closing brace

  lemma BraceEnds(m: Map, name: string, depth: nat, f: Features)
    ensures var r := ReadMembers("}", m, name, depth, f);
            r.Done? && r.value.Object? && (r.ok <==> name == "")
  {
    hide Lex, LexPastComments, Recover, ReadMember;
    JsonLayout.LexMark("", '}', "");
    assert "" + ("}" + "") == "}";
    JsonLayout.NotComment("}", f);
  }

  lemma CommaThenBrace(name: string, v: Value, m: Map, f: Features)
    requires JsonLayout.IsLeaf(v)
    ensures ReadMember(JsonLayout.LeafText(v) + ",}", m, name, 1, f)
         == ReadMembers("}", Put(m, Name(name), JsonLayout.LeafValue(v)), name, 1, f)
  {
    hide Lex, LexPastComments, ReadValue, ReadMembers, Put, Find, JsonLayout.LeafText, JsonLayout.LeafValue;
    var text := JsonLayout.LeafText(v) + ",}";
    assert "" + text == text;
    JsonLayout.ReadLeaf("", v, ",}", 2, Find(m, Name(name)), f);
    JsonLayout.LexMark("", ',', "}");
    assert "" + ("," + "}") == ",}";
  }

  /** A comma before the closing brace is accepted exactly when the member before it has an empty name. */
  lemma TrailingComma(name: string, v: Value, root: Value, f: Features)
    requires JsonLayout.IsLeaf(v)
    ensures var doc := "{" + (Quote(name) + (":" + (JsonLayout.LeafText(v) + ",}")));
            Parse(doc, root, f).Some? && (Parse(doc, root, f).value.ok <==> name == "")
  {
    hide Lex, NextToken, LexPastComments, Quote, Decode, ReadMember, JsonLayout.LeafText, Put;
    var text := JsonLayout.LeafText(v) + ",}";
    var members := Quote(name) + (":" + text);
    var doc := "{" + members;
    assert "" + doc == doc && "" + members == members && "" + (":" + text) == ":" + text;
    JsonLayout.LexMark("", '{', members);
    JsonLayout.NotComment(doc, f);
    JsonLayout.LexString("", name, ":" + text);
    JsonLayout.NotComment(members, f);
    JsonLayout.LexMark("", ':', text);
    CommaThenBrace(name, v, Empty, f);
    BraceEnds(Put(Empty, Name(name), JsonLayout.LeafValue(v)), name, 1, f);
    assert ReadValue(doc, 1, root, f) == ReadMembers(members, Empty, "", 1, f);
    assert ReadMembers(members, Empty, "", 1, f) == ReadMember(text, Empty, name, 1, f);
  }
}
