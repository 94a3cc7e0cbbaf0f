/**
 jsoncpp's FastWriter, and the round trip through the Reader: every tree without doubles
 comes back in canonical form.
 */
module JsonWriter {
  import opened JsonValue
  import opened JsonNumber
  import opened JsonString
  import opened JsonReader
  import opened JsonLayout

  // ----- trees that can be written

  /** Every key of m is of the given kind and below the limit. */
  predicate Below(m: Map, key: Key) {
    m.Entry? ==> m.key.Index? == key.Index? && KeyLess(m.key, key) && Below(m.rest, key)
  }

  /** Every key of m is of the given kind and above the limit. */
  predicate Above(key: Key, m: Map) {
    m.Entry? ==> m.key.Index? == key.Index? && KeyLess(key, m.key) && Above(key, m.rest)
  }

  /** No doubles, integers of 64 bits, keys of the right kind in strict order. */
  predicate Printable(v: Value) {
    match v
    case Array(m) => PrintableMap(m, true)
    case Object(m) => PrintableMap(m, false)
    case _ => IsLeaf(v)
  }

  predicate PrintableMap(m: Map, arr: bool) {
    m.Entry? ==> m.key.Index? == arr && Printable(m.value) && Above(m.key, m.rest) && PrintableMap(m.rest, arr)
  }

  lemma {:induction false} FindSmaller(m: Map, key: Key)
    requires m.Entry?
    ensures Nodes(Find(m, key)) < MapNodes(m)
  {
    if m.key != key && m.rest.Entry? {
      FindSmaller(m.rest, key);
    }
  }

  lemma {:induction false} FindPrintable(m: Map, arr: bool, key: Key)
    requires PrintableMap(m, arr)
    ensures Printable(Find(m, key))
  {
    if m.Entry? {
      FindPrintable(m.rest, arr, key);
    }
  }

  /** Element of an array; null where there is a hole. */
  function At(m: Map, i: nat): (v: Value)
    requires PrintableMap(m, true) && m.Entry?
    ensures Printable(v) && Nodes(v) < MapNodes(m)
  {
    FindSmaller(m, Index(i));
    FindPrintable(m, true, Index(i));
    Find(m, Index(i))
  }

  // ----- what FastWriter writes

  function FastLayout(v: Value, yaml: bool): (l: Layout)
    requires Printable(v)
    ensures Valid(l)
    decreases Nodes(v), 0
  {
    match v
    case Array(m) => List("", FastItems(m, 0, ArraySize(m), yaml))
    case Object(m) => Record("", FastFields(m, yaml))
    case _ => Leaf(v)
  }

  function FastItems(m: Map, i: nat, n: nat, yaml: bool): (items: Items)
    requires PrintableMap(m, true) && (i < n ==> m.Entry?)
    ensures ValidItems(items)
    decreases MapNodes(m), if i < n then n - i else 0
  {
    if i >= n then NoItems else Item("", FastLayout(At(m, i), yaml), "", FastItems(m, i + 1, n, yaml))
  }

  function FastFields(m: Map, yaml: bool): (fields: Fields)
    requires PrintableMap(m, false)
    ensures ValidFields(fields)
    decreases MapNodes(m), 0
  {
    if m.Empty? then NoFields
    else Field("", m.key.s, "", if yaml then " " else "", FastLayout(m.value, yaml), "", FastFields(m.rest, yaml))
  }

  // ----- the canonical form a document comes back in

  /** Integers retyped by size, holes of arrays filled with null. */
  function Canonical(v: Value): Value
    requires Printable(v)
    decreases Nodes(v), 0
  {
    match v
    case Array(m) => Array(CanonicalItems(m, 0, ArraySize(m)))
    case Object(m) => Object(CanonicalMembers(m))
    case _ => LeafValue(v)
  }

  function CanonicalItems(m: Map, i: nat, n: nat): Map
    requires PrintableMap(m, true) && (i < n ==> m.Entry?)
    decreases MapNodes(m), if i < n then n - i else 0
  {
    if i >= n then Empty else Entry(Index(i), Canonical(At(m, i)), CanonicalItems(m, i + 1, n))
  }

  function CanonicalMembers(m: Map): Map
    requires PrintableMap(m, false)
    decreases MapNodes(m), 0
  {
    if m.Empty? then Empty else Entry(m.key, Canonical(m.value), CanonicalMembers(m.rest))
  }

  function Append(m: Map, n: Map): Map {
    if m.Empty? then n else Entry(m.key, m.value, Append(m.rest, n))
  }

  lemma {:induction false} PutLast(m: Map, key: Key, v: Value)
    requires Below(m, key)
    ensures Put(m, key, v) == Append(m, Entry(key, v, Empty))
  {
    if m.Entry? {
      KeyOrder(m.key, key);
      PutLast(m.rest, key, v);
    }
  }

  lemma {:induction false} AppendOne(m: Map, key: Key, v: Value, n: Map)
    ensures Append(Append(m, Entry(key, v, Empty)), n) == Append(m, Entry(key, v, n))
  {
    if m.Entry? {
      AppendOne(m.rest, key, v, n);
    }
  }

  lemma KeyTransitive(a: Key, b: Key, c: Key)
    requires a.Index? == b.Index? == c.Index? && KeyLess(a, b) && KeyLess(b, c)
    ensures KeyLess(a, c)
  {
    if a.Name? { StringTransitive(a.s, b.s, c.s); }
  }

  lemma {:induction false} BelowLast(m: Map, key: Key, v: Value, next: Key)
    requires Below(m, key) && key.Index? == next.Index? && KeyLess(key, next)
    ensures Below(Append(m, Entry(key, v, Empty)), next)
  {
    if m.Entry? {
      KeyTransitive(m.key, key, next);
      BelowLast(m.rest, key, v, next);
    }
  }

  lemma {:induction false} FastMeaning(v: Value, yaml: bool)
    requires Printable(v)
    ensures Meaning(FastLayout(v, yaml)) == Canonical(v)
    decreases Nodes(v), 0
  {
    match v
    case Array(m) => FastItemsMeaning(Empty, m, 0, ArraySize(m), yaml);
    case Object(m) => FastFieldsMeaning(Empty, m, yaml);
    case _ =>
  }

  lemma {:induction false} FastItemsMeaning(acc: Map, m: Map, i: nat, n: nat, yaml: bool)
    requires PrintableMap(m, true) && (i < n ==> m.Entry?) && Below(acc, Index(i))
    ensures AddItems(acc, i, FastItems(m, i, n, yaml)) == Append(acc, CanonicalItems(m, i, n))
    decreases MapNodes(m), if i < n then n - i else 0
  {
    if i < n {
      var v := Canonical(At(m, i));
      FastMeaning(At(m, i), yaml);
      PutLast(acc, Index(i), v);
      BelowLast(acc, Index(i), v, Index(i + 1));
      FastItemsMeaning(Put(acc, Index(i), v), m, i + 1, n, yaml);
      AppendOne(acc, Index(i), v, CanonicalItems(m, i + 1, n));
    } else {
      AppendNothing(acc);
    }
  }

  lemma {:induction false} AppendNothing(m: Map)
    ensures Append(m, Empty) == m
  {
    if m.Entry? { AppendNothing(m.rest); }
  }

  lemma {:induction false} FastFieldsMeaning(acc: Map, m: Map, yaml: bool)
    requires PrintableMap(m, false) && (m.Entry? ==> Below(acc, m.key))
    ensures AddFields(acc, FastFields(m, yaml)) == Append(acc, CanonicalMembers(m))
    decreases MapNodes(m), 0
  {
    if m.Entry? {
      var v := Canonical(m.value);
      FastMeaning(m.value, yaml);
      PutLast(acc, m.key, v);
      if m.rest.Entry? { BelowLast(acc, m.key, v, m.rest.key); }
      FastFieldsMeaning(Put(acc, m.key, v), m.rest, yaml);
      AppendOne(acc, m.key, v, CanonicalMembers(m.rest));
    } else {
      AppendNothing(acc);
    }
  }

  // ----- depth

  /** Number of nested values, the root included. */
  function Depth(v: Value): nat {
    if v.Array? || v.Object? then 1 + MapDepth(v.entries) else 1
  }

  function MapDepth(m: Map): nat {
    if m.Empty? then 0 else Max(Depth(m.value), MapDepth(m.rest))
  }

  lemma {:induction false} FindDepth(m: Map, key: Key)
    requires m.Entry?
    ensures Depth(Find(m, key)) <= MapDepth(m)
  {
    if m.key != key && m.rest.Entry? {
      FindDepth(m.rest, key);
    }
  }

  /** Every pair of part is a pair of m with an index below n. */
  predicate Within(part: Map, m: Map, n: nat) {
    part.Entry? ==> part.key.Index? && part.key.i < n && Find(m, part.key) == part.value && Within(part.rest, m, n)
  }

  lemma {:induction false} WithinLonger(part: Map, m: Map, n: nat, key: Key, v: Value)
    requires Within(part, m, n) && Above(key, part)
    ensures Within(part, Entry(key, v, m), n)
  {
    if part.Entry? {
      KeyOrder(key, part.key);
      WithinLonger(part.rest, m, n, key, v);
    }
  }

  lemma {:induction false} WithinSelf(m: Map)
    requires PrintableMap(m, true)
    ensures Within(m, m, ArraySize(m))
  {
    if m.Entry? && m.rest.Entry? {
      WithinSelf(m.rest);
      WithinLonger(m.rest, m.rest, ArraySize(m), m.key, m.value);
    }
  }

  /** The text of a tree nests exactly as deep as the tree. */
  lemma {:induction false} FastHeight(v: Value, yaml: bool)
    requires Printable(v)
    ensures Height(FastLayout(v, yaml)) == Depth(v)
    decreases Nodes(v), 0
  {
    match v
    case Array(m) =>
      FastItemsHeight(m, 0, ArraySize(m), yaml);
      WithinSelf(m);
      FastItemsCover(m, m, ArraySize(m), yaml);
    case Object(m) => FastFieldsHeight(m, yaml);
    case _ =>
  }

  lemma {:induction false} FastItemsHeight(m: Map, i: nat, n: nat, yaml: bool)
    requires PrintableMap(m, true) && (i < n ==> m.Entry?)
    ensures ItemsHeight(FastItems(m, i, n, yaml)) <= MapDepth(m)
    decreases MapNodes(m), if i < n then n - i else 0
  {
    if i < n {
      FastHeight(At(m, i), yaml);
      FindDepth(m, Index(i));
      FastItemsHeight(m, i + 1, n, yaml);
    }
  }

  lemma {:induction false} FastItemsAt(m: Map, i: nat, n: nat, k: nat, yaml: bool)
    requires PrintableMap(m, true) && m.Entry? && i <= k < n
    ensures Height(FastLayout(At(m, k), yaml)) <= ItemsHeight(FastItems(m, i, n, yaml))
    decreases n - i
  {
    hide FastLayout, Height, At, FastItems, ItemsHeight;
    FastItemsStep(m, i, n, yaml);
    if i < k { FastItemsAt(m, i + 1, n, k, yaml); }
  }

  lemma FastItemsStep(m: Map, i: nat, n: nat, yaml: bool)
    requires PrintableMap(m, true) && m.Entry? && i < n
    ensures var h := ItemsHeight(FastItems(m, i, n, yaml));
            Height(FastLayout(At(m, i), yaml)) <= h && ItemsHeight(FastItems(m, i + 1, n, yaml)) <= h
  {
    hide FastLayout, Height, At;
  }

  lemma {:induction false} FastItemsCover(m: Map, part: Map, n: nat, yaml: bool)
    requires PrintableMap(m, true) && (n > 0 ==> m.Entry?) && Within(part, m, n)
    ensures MapDepth(part) <= ItemsHeight(FastItems(m, 0, n, yaml))
    decreases MapNodes(m), MapNodes(part)
  {
    if part.Entry? {
      FastHeight(At(m, part.key.i), yaml);
      FastItemsAt(m, 0, n, part.key.i, yaml);
      FastItemsCover(m, part.rest, n, yaml);
    }
  }

  lemma {:induction false} FastFieldsHeight(m: Map, yaml: bool)
    requires PrintableMap(m, false)
    ensures FieldsHeight(FastFields(m, yaml)) == MapDepth(m)
    decreases MapNodes(m), 0
  {
    if m.Entry? {
      FastHeight(m.value, yaml);
      FastFieldsHeight(m.rest, yaml);
    }
  }

  // ----- round trip

  function FastText(v: Value, yaml: bool, lineFeed: bool): string
    requires Printable(v)
  {
    Text(FastLayout(v, yaml), if lineFeed then "\n" else "")
  }

  /**
   Reading what was written yields the canonical form, for every feature set of the Reader;
   a tree nested deeper than the stack limit makes the Reader throw.
   */
  lemma WriteRead(v: Value, yaml: bool, lineFeed: bool, root: Value, f: Features)
    requires Printable(v)
    requires f.strictRoot ==> v.Array? || v.Object?
    ensures Parse(FastText(v, yaml, lineFeed), root, f)
         == if Depth(v) <= STACK_LIMIT then Some(Parsed(true, Canonical(v), 0)) else None
  {
    var l := FastLayout(v, yaml);
    FastMeaning(v, yaml);
    FastHeight(v, yaml);
    var t := if lineFeed then "\n" else "";
    ParseLayout("", l, t, root, f);
    assert "" + Text(l, t) == Text(l, t);
  }

  // ----- writing the result again

  lemma {:induction false} CanonicalItemsAbove(m: Map, i: nat, n: nat, key: nat)
    requires PrintableMap(m, true) && (i < n ==> m.Entry?) && key < i
    ensures Above(Index(key), CanonicalItems(m, i, n))
    decreases if i < n then n - i else 0
  {
    if i < n { CanonicalItemsAbove(m, i + 1, n, key); }
  }

  lemma {:induction false} CanonicalMembersAbove(m: Map, key: Key)
    requires PrintableMap(m, false) && Above(key, m)
    ensures Above(key, CanonicalMembers(m))
  {
    if m.Entry? { CanonicalMembersAbove(m.rest, key); }
  }

  lemma {:induction false} CanonicalPrintable(v: Value)
    requires Printable(v)
    ensures Printable(Canonical(v))
    decreases Nodes(v), 0
  {
    match v
    case Array(m) => CanonicalItemsPrintable(m, 0, ArraySize(m));
    case Object(m) => CanonicalMembersPrintable(m);
    case _ =>
  }

  lemma {:induction false} CanonicalItemsPrintable(m: Map, i: nat, n: nat)
    requires PrintableMap(m, true) && (i < n ==> m.Entry?)
    ensures PrintableMap(CanonicalItems(m, i, n), true)
    ensures i < n ==> ArraySize(CanonicalItems(m, i, n)) == n
    ensures i >= n ==> CanonicalItems(m, i, n) == Empty
    decreases MapNodes(m), if i < n then n - i else 0
  {
    if i < n {
      CanonicalPrintable(At(m, i));
      CanonicalItemsAbove(m, i + 1, n, i);
      CanonicalItemsPrintable(m, i + 1, n);
    }
  }

  lemma {:induction false} CanonicalMembersPrintable(m: Map)
    requires PrintableMap(m, false)
    ensures PrintableMap(CanonicalMembers(m), false)
    decreases MapNodes(m), 0
  {
    if m.Entry? {
      CanonicalPrintable(m.value);
      CanonicalMembersAbove(m.rest, m.key);
      CanonicalMembersPrintable(m.rest);
    }
  }

  lemma {:induction false} CanonicalAt(m: Map, i: nat, n: nat, k: nat)
    requires PrintableMap(m, true) && i <= k < n && m.Entry?
    ensures Find(CanonicalItems(m, i, n), Index(k)) == Canonical(At(m, k))
    decreases n - i
  {
    if i < k { CanonicalAt(m, i + 1, n, k); }
  }

  lemma {:induction false} SameText(v: Value, yaml: bool, t: string)
    requires Printable(v)
    ensures Printable(Canonical(v))
    ensures Text(FastLayout(Canonical(v), yaml), t) == Text(FastLayout(v, yaml), t)
    decreases Nodes(v), 0
  {
    hide Quote, IntText;
    CanonicalPrintable(v);
    match v
    case Array(m) =>
      var n := ArraySize(m);
      CanonicalItemsPrintable(m, 0, n);
      SameItems(m, 0, n, yaml, t);
    case Object(m) => SameFields(m, yaml, t);
    case _ =>
  }

  lemma {:induction false} SameItems(m: Map, i: nat, n: nat, yaml: bool, t: string)
    requires PrintableMap(m, true) && (n > 0 ==> m.Entry?)
    ensures var c := CanonicalItems(m, 0, n);
            && PrintableMap(c, true) && (i < n ==> c.Entry?)
            && ItemsText("", FastItems(c, i, n, yaml), t) == ItemsText("", FastItems(m, i, n, yaml), t)
    decreases MapNodes(m), if i < n then n - i else 0
  {
    hide FastLayout, Text, Canonical;
    var c := CanonicalItems(m, 0, n);
    CanonicalItemsPrintable(m, 0, n);
    if i < n {
      SameItems(m, i + 1, n, yaml, t);
      CanonicalAt(m, 0, n, i);
      var tail := ItemsTail("", FastItems(m, i + 1, n, yaml), t);
      assert ItemsTail("", FastItems(c, i + 1, n, yaml), t) == tail;
      SameText(At(m, i), yaml, "" + tail);
    }
  }

  lemma {:induction false} SameFields(m: Map, yaml: bool, t: string)
    requires PrintableMap(m, false)
    ensures PrintableMap(CanonicalMembers(m), false)
    ensures FieldsText("", FastFields(CanonicalMembers(m), yaml), t) == FieldsText("", FastFields(m, yaml), t)
    decreases MapNodes(m), 0
  {
    hide Quote;
    CanonicalMembersPrintable(m);
    if m.Entry? {
      SameFields(m.rest, yaml, t);
      var tail := FieldsTail("", FastFields(m.rest, yaml), t);
      assert FieldsTail("", FastFields(CanonicalMembers(m.rest), yaml), t) == tail;
      SameText(m.value, yaml, "" + tail);
    }
  }

  /** Writing the tree that was read gives the identical text. */
  lemma ReadWrite(v: Value, yaml: bool, lineFeed: bool, root: Value, f: Features)
    requires Printable(v) && Depth(v) <= STACK_LIMIT
    requires f.strictRoot ==> v.Array? || v.Object?
    ensures var p := Parse(FastText(v, yaml, lineFeed), root, f);
            p.Some? && p.value.ok && Printable(p.value.root) && FastText(p.value.root, yaml, lineFeed) == FastText(v, yaml, lineFeed)
  {
    WriteRead(v, yaml, lineFeed, root, f);
    SameText(v, yaml, if lineFeed then "\n" else "");
  }

  // ----- the writer itself

  class FastWriter {
    var document: string
    const yaml: bool
    const omitLineFeed: bool

    constructor (yaml: bool, omitLineFeed: bool)
      ensures this.yaml == yaml && this.omitLineFeed == omitLineFeed && document == ""
    {
      this.yaml := yaml;
      this.omitLineFeed := omitLineFeed;
      document := "";
    }

    method Write(root: Value) returns (text: string)
      requires Printable(root)
      modifies this
      ensures text == FastText(root, yaml, !omitLineFeed)
    {
      document := "";
      WriteValue(root);
      var end := if omitLineFeed then "" else "\n";
      document := document + end;
      TextSplit(FastLayout(root, yaml), end);
      text := document;
    }

    method WriteValue(v: Value)
      requires Printable(v)
      modifies this
      ensures document == old(document) + Text(FastLayout(v, yaml), "")
      decreases Nodes(v), 0
    {
      match v
      case Null => document := document + "null";
      case Bool(b) => document := document + if b then "true" else "false";
      case Str(s) =>
        var quoted := ValueToQuotedString(s);
        document := document + quoted;
      case Int(n) =>
        var digits := ValueToString(n);
        document := document + digits;
      case UInt(n) =>
        var digits := ValueToString(n);
        document := document + digits;
      case Array(m) => WriteArray(m);
      case Object(m) => WriteObject(m);
    }

    method WriteArray(m: Map)
      requires PrintableMap(m, true)
      modifies this
      ensures document == old(document) + Text(FastLayout(Array(m), yaml), "")
      decreases MapNodes(m), 1
    {
      hide FastItems, ItemsText;
      var size := ArraySize(m);
      document := document + "[";
      ghost var all := old(document) + "[" + ItemsRest(m, 0, size, yaml);
      for index := 0 to size
        invariant document + ItemsRest(m, index, size, yaml) == all
      {
        ItemsStep(m, index, size, yaml);
        var comma := if index > 0 then "," else "";
        ghost var text, rest := Text(FastLayout(At(m, index), yaml), ""), ItemsRest(m, index + 1, size, yaml);
        Moved(document, comma, text + rest);
        document := document + comma;
        Moved(document, text, rest);
        WriteValue(At(m, index));
      }
      ItemsEnd(m, size, yaml);
      document := document + "]";
    }

    method WriteObject(m: Map)
      requires PrintableMap(m, false)
      modifies this
      ensures document == old(document) + Text(FastLayout(Object(m), yaml), "")
      decreases MapNodes(m), 1
    {
      hide FastFields, FieldsText, Quote;
      document := document + "{";
      var it := m;
      ghost var all := old(document) + "{" + FieldsRest(m, true, yaml);
      while it.Entry?
        invariant PrintableMap(it, false)
        invariant MapNodes(it) <= MapNodes(m)
        invariant document + FieldsRest(it, it == m, yaml) == all
        decreases it
      {
        WriteField(it, it == m);
        it := it.rest;
      }
      FieldsEnd(it == m, yaml);
      document := document + "}";
    }

    /** A member, with the comma before it. */
    method WriteField(it: Map, first: bool)
      requires PrintableMap(it, false) && it.Entry?
      modifies this
      ensures document + FieldsRest(it.rest, false, yaml) == old(document) + FieldsRest(it, first, yaml)
      decreases MapNodes(it), 0
    {
      hide FastFields, FieldsText, Quote, FieldsRest, FastLayout;
      FieldsStep(it, first, yaml);
      var comma := if first then "" else ",";
      var name := ValueToQuotedString(it.key.s);
      var colon := if yaml then ": " else ":";
      ghost var text, rest := Text(FastLayout(it.value, yaml), ""), FieldsRest(it.rest, false, yaml);
      Moved(document, comma, name + (colon + (text + rest)));
      document := document + comma;
      Moved(document, name, colon + (text + rest));
      document := document + name;
      Moved(document, colon, text + rest);
      document := document + colon;
      Moved(document, text, rest);
      WriteValue(it.value);
    }
  }

  lemma Moved(written: string, next: string, rest: string)
    ensures written + (next + rest) == (written + next) + rest
  {
  }

  /** What is still to be written before element `index` of an array. */
  function ItemsRest(m: Map, index: nat, size: nat, yaml: bool): string
    requires PrintableMap(m, true) && (index < size ==> m.Entry?)
  {
    var items := FastItems(m, index, size, yaml);
    if index == 0 then ItemsText("", items, "") else ItemsTail("", items, "")
  }

  lemma ItemsStep(m: Map, index: nat, size: nat, yaml: bool)
    requires PrintableMap(m, true) && index < size && m.Entry?
    ensures ItemsRest(m, index, size, yaml)
         == (if index > 0 then "," else "") + (Text(FastLayout(At(m, index), yaml), "") + ItemsRest(m, index + 1, size, yaml))
  {
    var node, tail := FastLayout(At(m, index), yaml), ItemsRest(m, index + 1, size, yaml);
    var items := FastItems(m, index, size, yaml);
    assert items == Item("", node, "", FastItems(m, index + 1, size, yaml));
    assert ItemsText("", items, "") == "" + Text(node, "" + ItemsTail("", items.rest, ""));
    assert "" + tail == tail;
    TextSplit(node, tail);
    assert "" + Text(node, tail) == Text(node, tail);
  }

  lemma ItemsEnd(m: Map, size: nat, yaml: bool)
    requires PrintableMap(m, true)
    ensures ItemsRest(m, size, size, yaml) == "]"
  {
  }

  /** What is still to be written before a member of an object. */
  function FieldsRest(it: Map, first: bool, yaml: bool): string
    requires PrintableMap(it, false)
  {
    if first then FieldsText("", FastFields(it, yaml), "") else FieldsTail("", FastFields(it, yaml), "")
  }

  lemma FieldsStep(it: Map, first: bool, yaml: bool)
    requires PrintableMap(it, false) && it.Entry?
    ensures FieldsRest(it, first, yaml)
         == (if first then "" else ",") + (Quote(it.key.s) + ((if yaml then ": " else ":")
            + (Text(FastLayout(it.value, yaml), "") + FieldsRest(it.rest, false, yaml))))
  {
    hide Quote;
    var node, tail := FastLayout(it.value, yaml), FieldsRest(it.rest, false, yaml);
    var space := if yaml then " " else "";
    assert "" + tail == tail;
    TextSplit(node, tail);
    var value := Text(node, tail);
    assert ":" + (space + value) == (if yaml then ": " else ":") + value;
    assert "" + (":" + (space + value)) == ":" + (space + value);
    var fields := FastFields(it, yaml);
    assert fields == Field("", it.key.s, "", space, node, "", FastFields(it.rest, yaml));
    assert FieldsText("", fields, "") == "" + (Quote(it.key.s) + ("" + (":" + (space + Text(node, "" + tail)))));
    assert "" + (Quote(it.key.s) + (":" + (space + value))) == Quote(it.key.s) + (":" + (space + value));
  }

  lemma FieldsEnd(first: bool, yaml: bool)
    ensures FieldsRest(Empty, first, yaml) == "}"
  {
  }
}
