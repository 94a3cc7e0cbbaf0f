/**
 jsoncpp's BuiltStyledStreamWriter: the indented layout it chooses, the writer with its
 redirected output, and the proof that the Reader cannot tell its text from FastWriter's.
 */
module JsonStyledWriter {
  import opened JsonValue
  import opened JsonNumber
  import opened JsonString
  import opened JsonReader
  import opened JsonLayout
  import opened JsonWriter

  const RIGHT_MARGIN := 74

  /** Indentation, whether the comment style is "All", and YAML compatibility. */
  datatype Style = Style(indentation: string, allComments: bool, yaml: bool) {
    /** The parts of the colon symbol before and after the colon. */
    function Gap(): string {
      if yaml || indentation == "" then "" else " "
    }

    function Space(): string {
      if yaml || indentation != "" then " " else ""
    }

    /** A fresh line at the given indentation; nothing when there is no indentation. */
    function NewLine(indent: string): string {
      if indentation == "" then "" else "\n" + indent
    }

    function Pad(): string {
      if indentation == "" then "" else " "
    }
  }

  // ----- the layout

  /** A leaf or an empty container: what may be collected as a child string. */
  predicate IsSmall(v: Value) {
    match v
    case Array(m) => m.Empty?
    case Object(m) => m.Empty?
    case _ => true
  }

  function SmallText(v: Value): string
    requires Printable(v) && IsSmall(v)
  {
    match v
    case Array(_) => "[]"
    case Object(_) => "{}"
    case _ => LeafText(v)
  }

  /** Some element from i on is a non-empty container. */
  predicate HasLarge(m: Map, i: nat, n: nat)
    requires PrintableMap(m, true) && (i < n ==> m.Entry?)
    decreases if i < n then n - i else 0
  {
    i < n && (!IsSmall(At(m, i)) || HasLarge(m, i + 1, n))
  }

  function TextLengths(m: Map, i: nat, n: nat): nat
    requires PrintableMap(m, true) && (i < n ==> m.Entry?) && !HasLarge(m, i, n)
    decreases if i < n then n - i else 0
  {
    if i >= n then 0 else |SmallText(At(m, i))| + TextLengths(m, i + 1, n)
  }

  /** Conversion to a 32-bit unsigned integer. */
  function Wrap(n: nat): (r: nat)
    ensures r < 0x1_0000_0000
  {
    n % 0x1_0000_0000
  }

  /** Whether a non-empty array takes several lines; sizes and lengths are 32-bit. */
  predicate MultiLine(m: Map, style: Style)
    requires PrintableMap(m, true) && m.Entry?
  {
    var n := ArraySize(m);
    || style.allComments
    || Wrap(n * 3) >= RIGHT_MARGIN
    || HasLarge(m, 0, n)
    || Wrap(4 + (n - 1) * 2 + TextLengths(m, 0, n)) >= RIGHT_MARGIN
  }

  /** White space put before a value, the value, and whether the line is indented afterwards. */
  datatype Placed = Placed(lead: string, node: Layout, indented: bool)

  function Place(v: Value, style: Style, indent: string, indented: bool): (p: Placed)
    requires Printable(v) && Blank(style.indentation) && Blank(indent)
    ensures Valid(p.node) && Blank(p.lead)
    ensures Strip(p.node) == FastLayout(v, false)
    ensures !indented ==> !p.indented
    decreases Nodes(v), 0
  {
    var lead := if indented then "" else style.NewLine(indent);
    match v
    case Array(m) =>
      if m.Empty? then Placed("", List("", NoItems), indented)
      else if MultiLine(m, style) then
        Placed(lead, List("", PlaceLines(m, 0, ArraySize(m), style, indent)), false)
      else Placed("", List("", PlaceInline(m, 0, ArraySize(m), style)), indented)
    case Object(m) =>
      if m.Empty? then Placed("", Record("", NoFields), indented)
      else Placed(lead, Record("", PlaceFields(m, style, indent)), false)
    case _ => Placed("", Leaf(v), indented)
  }

  /** One element per line. */
  function PlaceLines(m: Map, i: nat, n: nat, style: Style, indent: string): (items: Items)
    requires PrintableMap(m, true) && (i < n ==> m.Entry?) && Blank(style.indentation) && Blank(indent)
    ensures ValidItems(items) && StripItems(items) == FastItems(m, i, n, false)
    decreases MapNodes(m), if i < n then n - i else 0
  {
    if i >= n then NoItems
    else
      var inner := indent + style.indentation;
      var p := Place(At(m, i), style, inner, true);
      Item(style.NewLine(inner) + p.lead, p.node, if i + 1 == n then style.NewLine(indent) else "",
           PlaceLines(m, i + 1, n, style, indent))
  }

  /** All elements on one line. */
  function PlaceInline(m: Map, i: nat, n: nat, style: Style): (items: Items)
    requires PrintableMap(m, true) && (i < n ==> m.Entry?) && Blank(style.indentation)
    ensures ValidItems(items) && StripItems(items) == FastItems(m, i, n, false)
    decreases MapNodes(m), if i < n then n - i else 0
  {
    if i >= n then NoItems
    else
      Item(style.Pad(), Place(At(m, i), style, "", true).node, if i + 1 == n then style.Pad() else "",
           PlaceInline(m, i + 1, n, style))
  }

  function PlaceFields(m: Map, style: Style, indent: string): (fields: Fields)
    requires PrintableMap(m, false) && Blank(style.indentation) && Blank(indent)
    ensures ValidFields(fields) && StripFields(fields) == FastFields(m, false)
    decreases MapNodes(m), 0
  {
    if m.Empty? then NoFields
    else
      var inner := indent + style.indentation;
      var p := Place(m.value, style, inner, false);
      Field(style.NewLine(inner), m.key.s, style.Gap(), style.Space() + p.lead, p.node,
            if m.rest.Empty? then style.NewLine(indent) else "", PlaceFields(m.rest, style, indent))
  }

  function StyledText(v: Value, style: Style): string
    requires Printable(v) && Blank(style.indentation)
  {
    var p := Place(v, style, "", true);
    p.lead + Text(p.node, "")
  }

  /** Reading styled text gives what reading FastWriter's text gives: the canonical form. */
  lemma StyledReadsAsFast(v: Value, style: Style, root: Value, f: Features)
    requires Printable(v) && Blank(style.indentation)
    requires f.strictRoot ==> v.Array? || v.Object?
    ensures Parse(StyledText(v, style), root, f) == Parse(FastText(v, style.yaml, true), root, f)
    ensures Depth(v) <= STACK_LIMIT ==> Parse(StyledText(v, style), root, f) == Some(Parsed(true, Canonical(v), 0))
  {
    var p := Place(v, style, "", true);
    StripKeeps(p.node);
    FastMeaning(v, false);
    FastHeight(v, false);
    ParseLayout(p.lead, p.node, "", root, f);
    WriteRead(v, style.yaml, true, root, f);
  }

  // ----- what is left to write inside a container

  /** From element i of a multi-line array on; after the last one only the closing line is left. */
  function LinesLeft(m: Map, i: nat, n: nat, style: Style, indent: string): string
    requires PrintableMap(m, true) && (i < n ==> m.Entry?) && Blank(style.indentation) && Blank(indent)
  {
    if i < n then ItemsText("", PlaceLines(m, i, n, style, indent), "") else style.NewLine(indent) + "]"
  }

  lemma LinesStep(m: Map, i: nat, n: nat, style: Style, indent: string)
    requires PrintableMap(m, true) && i < n && m.Entry? && Blank(style.indentation) && Blank(indent)
    ensures var inner := indent + style.indentation;
            var p := Place(At(m, i), style, inner, true);
            LinesLeft(m, i, n, style, indent) ==
              style.NewLine(inner) + ((p.lead + Text(p.node, "")) + ((if i + 1 < n then "," else "") + LinesLeft(m, i + 1, n, style, indent)))
  {
    hide Place;
    var inner := indent + style.indentation;
    var p := Place(At(m, i), style, inner, true);
    var items := PlaceLines(m, i, n, style, indent);
    var tail := (if i + 1 < n then "," else "") + LinesLeft(m, i + 1, n, style, indent);
    assert items.after + ItemsTail("", items.rest, "") == tail by {
      assert "" + ItemsTail("", items.rest, "") == ItemsTail("", items.rest, "");
    }
    Assembled(style.NewLine(inner), p.lead, p.node, tail);
  }

  lemma Assembled(a: string, b: string, node: Layout, tail: string)
    requires Valid(node)
    ensures (a + b) + Text(node, tail) == a + ((b + Text(node, "")) + tail)
  {
    hide Text;
    TextSplit(node, tail);
    var x := Text(node, "");
    assert (a + b) + (x + tail) == a + ((b + x) + tail);
  }

  function InlineLeft(m: Map, i: nat, n: nat, style: Style): string
    requires PrintableMap(m, true) && (i < n ==> m.Entry?) && Blank(style.indentation)
  {
    if i < n then ItemsText("", PlaceInline(m, i, n, style), "") else style.Pad() + "]"
  }

  lemma SmallPlaced(v: Value, style: Style, indent: string, indented: bool)
    requires Printable(v) && IsSmall(v) && Blank(style.indentation) && Blank(indent)
    ensures var p := Place(v, style, indent, indented);
            p.lead == "" && Text(p.node, "") == SmallText(v) && p.indented == indented
  {
    if !v.Array? && !v.Object? { assert LeafText(v) + "" == LeafText(v); }
  }

  lemma InlineStep(m: Map, i: nat, n: nat, style: Style)
    requires PrintableMap(m, true) && i < n && m.Entry? && Blank(style.indentation) && IsSmall(At(m, i))
    ensures InlineLeft(m, i, n, style)
         == style.Pad() + (SmallText(At(m, i)) + ((if i + 1 < n then "," else "") + InlineLeft(m, i + 1, n, style)))
  {
    hide Place, SmallText;
    SmallPlaced(At(m, i), style, "", true);
    var p := Place(At(m, i), style, "", true);
    var items := PlaceInline(m, i, n, style);
    var tail := (if i + 1 < n then "," else "") + InlineLeft(m, i + 1, n, style);
    assert items.after + ItemsTail("", items.rest, "") == tail;
    TextSplit(p.node, tail);
  }

  function FieldsLeft(m: Map, style: Style, indent: string): string
    requires PrintableMap(m, false) && Blank(style.indentation) && Blank(indent)
  {
    if m.Entry? then FieldsText("", PlaceFields(m, style, indent), "") else style.NewLine(indent) + "}"
  }

  lemma FieldsLeftStep(m: Map, style: Style, indent: string)
    requires PrintableMap(m, false) && m.Entry? && Blank(style.indentation) && Blank(indent)
    ensures var inner := indent + style.indentation;
            var p := Place(m.value, style, inner, false);
            FieldsLeft(m, style, indent) ==
              style.NewLine(inner) + (Quote(m.key.s) + ((style.Gap() + ":" + style.Space())
                + ((p.lead + Text(p.node, "")) + ((if m.rest.Entry? then "," else "") + FieldsLeft(m.rest, style, indent)))))
  {
    hide Place, Quote;
    var inner := indent + style.indentation;
    var p := Place(m.value, style, inner, false);
    var fields := PlaceFields(m, style, indent);
    var tail := (if m.rest.Entry? then "," else "") + FieldsLeft(m.rest, style, indent);
    assert fields.after + FieldsTail("", fields.rest, "") == tail by {
      assert "" + FieldsTail("", fields.rest, "") == FieldsTail("", fields.rest, "");
    }
    var value := (p.lead + Text(p.node, "")) + tail;
    Assembled(style.Space(), p.lead, p.node, tail);
    ColonMoved(style.Gap(), style.Space(), value);
    assert FieldsText("", fields, "") == style.NewLine(inner) + (Quote(m.key.s) + (style.Gap() + (":" + (style.Space() + value))));
  }

  lemma ColonMoved(gap: string, space: string, value: string)
    ensures gap + (":" + (space + value)) == (gap + ":" + space) + value
  {
  }

  function SmallTexts(m: Map, i: nat, n: nat): seq<string>
    requires PrintableMap(m, true) && (i < n ==> m.Entry?) && !HasLarge(m, i, n)
    decreases if i < n then n - i else 0
  {
    if i >= n then [] else [SmallText(At(m, i))] + SmallTexts(m, i + 1, n)
  }

  lemma {:induction false} SmallTextsAt(m: Map, i: nat, n: nat, k: nat)
    requires PrintableMap(m, true) && m.Entry? && i <= k < n && !HasLarge(m, i, n)
    ensures IsSmall(At(m, k)) && |SmallTexts(m, i, n)| == n - i && SmallTexts(m, i, n)[k - i] == SmallText(At(m, k))
    decreases n - i
  {
    if i + 1 < n {
      SmallTextsAt(m, i + 1, n, if i < k then k else i + 1);
    }
  }

  lemma SmallStep(m: Map, i: nat, n: nat)
    requires PrintableMap(m, true) && m.Entry? && i < n && !HasLarge(m, i, n)
    ensures IsSmall(At(m, i)) && !HasLarge(m, i + 1, n)
    ensures SmallTexts(m, i, n) == [SmallText(At(m, i))] + SmallTexts(m, i + 1, n)
    ensures TextLengths(m, i, n) == |SmallText(At(m, i))| + TextLengths(m, i + 1, n)
  {
  }

  lemma SmallEnd(m: Map, n: nat)
    requires PrintableMap(m, true)
    ensures !HasLarge(m, n, n) && SmallTexts(m, n, n) == [] && TextLengths(m, n, n) == 0
  {
  }

  /** 32-bit sums may be narrowed early. */
  lemma Narrow(a: nat, b: nat)
    ensures Wrap(Wrap(a) + b) == Wrap(a + b) && Wrap(Wrap(a)) == Wrap(a)
  {
  }

  // ----- the writer

  class StyledWriter {
    const style: Style
    var sout: string
    var childValues: seq<string>
    var addChildValues: bool
    var indented: bool
    var indentString: string

    /** With comment style "All" no child string is ever collected. */
    ghost predicate Ready()
      reads this
    {
      Blank(style.indentation) && Blank(indentString) && (style.allComments ==> childValues == [] && !addChildValues)
    }

    constructor (style: Style)
      requires Blank(style.indentation)
      ensures this.style == style && sout == "" && Ready()
    {
      this.style := style;
      sout := "";
      childValues := [];
      addChildValues := false;
      indented := false;
      indentString := "";
    }

    method Write(root: Value)
      requires Ready() && Printable(root)
      modifies this
      ensures sout == old(sout) + StyledText(root, style)
    {
      addChildValues := false;
      indented := true;
      indentString := "";
      WriteValue(root);
    }

    method PushValue(text: string)
      modifies this`sout, this`childValues
      ensures if addChildValues then sout == old(sout) && childValues == old(childValues) + [text]
              else sout == old(sout) + text && childValues == old(childValues)
    {
      if addChildValues {
        childValues := childValues + [text];
      } else {
        sout := sout + text;
      }
    }

    method WriteIndent()
      modifies this`sout
      ensures sout == old(sout) + style.NewLine(indentString)
    {
      if style.indentation != "" {
        sout := sout + "\n" + indentString;
      }
    }

    method WriteWithIndent(text: string)
      modifies this`sout, this`indented
      ensures sout == old(sout) + ((if old(indented) then "" else style.NewLine(indentString)) + text) && !indented
    {
      if !indented {
        WriteIndent();
      }
      sout := sout + text;
      indented := false;
    }

    method Indent()
      modifies this`indentString
      ensures indentString == old(indentString) + style.indentation
    {
      indentString := indentString + style.indentation;
    }

    method Unindent(ghost outer: string)
      requires indentString == outer + style.indentation
      modifies this`indentString
      ensures indentString == outer
    {
      assert |indentString| >= |style.indentation|;
      indentString := indentString[..|indentString| - |style.indentation|];
    }

    /** A collected value adds one child string and leaves the stream alone; any other goes to the stream as placed. */
    method WriteValue(v: Value)
      requires Ready() && Printable(v) && (addChildValues ==> IsSmall(v))
      modifies this
      ensures Ready() && indentString == old(indentString) && addChildValues == old(addChildValues)
      ensures addChildValues ==> sout == old(sout) && childValues == old(childValues) + [SmallText(v)] && indented == old(indented)
      ensures !addChildValues ==>
                var p := Place(v, style, indentString, old(indented));
                sout == old(sout) + (p.lead + Text(p.node, "")) && indented == p.indented
      decreases Nodes(v), 0
    {
      if IsSmall(v) {
        SmallPlaced(v, style, indentString, indented);
        hide Place;
        match v
        case Null => PushValue("null");
        case Bool(b) => PushValue(if b then "true" else "false");
        case Str(x) =>
          var quoted := ValueToQuotedString(x);
          PushValue(quoted);
        case Int(n) =>
          var digits := ValueToString(n);
          PushValue(digits);
        case UInt(n) =>
          var digits := ValueToString(n);
          PushValue(digits);
        case Array(_) => PushValue("[]");
        case Object(_) => PushValue("{}");
      } else if v.Array? {
        WriteArrayValue(v.entries);
      } else {
        WriteObjectValue(v.entries);
      }
    }

    method WriteArrayValue(m: Map)
      requires Ready() && PrintableMap(m, true) && m.Entry? && !addChildValues
      modifies this
      ensures Ready() && indentString == old(indentString) && !addChildValues
      ensures var p := Place(Array(m), style, indentString, old(indented));
              sout == old(sout) + (p.lead + Text(p.node, "")) && indented == p.indented
      decreases MapNodes(m), 2
    {
      var multi := style.allComments;
      if !multi {
        multi := IsMultiLineArray(m);
      }
      if multi {
        WriteLines(m);
      } else {
        WriteInline(m);
      }
    }

    /** Decides on the layout; nothing reaches the stream while the child strings are collected. */
    method IsMultiLineArray(m: Map) returns (multi: bool)
      requires Ready() && PrintableMap(m, true) && m.Entry? && !addChildValues && !style.allComments
      modifies this
      ensures Ready() && !addChildValues
      ensures sout == old(sout) && indented == old(indented) && indentString == old(indentString)
      ensures multi == MultiLine(m, style)
      ensures childValues == [] || (!HasLarge(m, 0, ArraySize(m)) && childValues == SmallTexts(m, 0, ArraySize(m)))
      ensures !multi ==> childValues != []
      decreases MapNodes(m), 1
    {
      hide Place;
      var size := ArraySize(m);
      multi := Wrap(size * 3) >= RIGHT_MARGIN;
      childValues := [];
      var index := 0;
      while index < size && !multi
        invariant index <= size
        invariant multi ==> Wrap(size * 3) >= RIGHT_MARGIN || HasLarge(m, 0, size)
        invariant !multi ==> Wrap(size * 3) < RIGHT_MARGIN && HasLarge(m, 0, size) == HasLarge(m, index, size)
      {
        multi := !IsSmall(At(m, index));
        index := index + 1;
      }
      if !multi {
        multi := CollectChildren(m, size);
        SmallTextsAt(m, 0, size, 0);
      }
    }

    /** Writes the children into childValues; tells whether the line would be too long. */
    method CollectChildren(m: Map, size: nat) returns (long: bool)
      requires Ready() && PrintableMap(m, true) && m.Entry? && !addChildValues && !style.allComments
      requires size == ArraySize(m) && !HasLarge(m, 0, size) && childValues == []
      modifies this
      ensures Ready() && !addChildValues
      ensures sout == old(sout) && indented == old(indented) && indentString == old(indentString)
      ensures long <==> Wrap(4 + (size - 1) * 2 + TextLengths(m, 0, size)) >= RIGHT_MARGIN
      ensures childValues == SmallTexts(m, 0, size)
      decreases MapNodes(m), 0
    {
      hide Place, SmallText, IsSmall, Wrap, SmallTexts, TextLengths, HasLarge, Blank;
      addChildValues := true;
      var lineLength: nat := Wrap(4 + (size - 1) * 2);
      ghost var whole := 4 + (size - 1) * 2 + TextLengths(m, 0, size);
      Narrow(4 + (size - 1) * 2, TextLengths(m, 0, size));
      for index := 0 to size
        invariant Ready() && addChildValues && !HasLarge(m, index, size)
        invariant sout == old(sout) && indented == old(indented) && indentString == old(indentString)
        invariant |childValues| == index && childValues + SmallTexts(m, index, size) == SmallTexts(m, 0, size)
        invariant Wrap(lineLength) == lineLength && Wrap(lineLength + TextLengths(m, index, size)) == Wrap(whole)
      {
        SmallStep(m, index, size);
        ghost var done := childValues;
        WriteValue(At(m, index));
        assert done + ([SmallText(At(m, index))] + SmallTexts(m, index + 1, size)) == childValues + SmallTexts(m, index + 1, size);
        Narrow(lineLength + |childValues[index]|, TextLengths(m, index + 1, size));
        lineLength := Wrap(lineLength + |childValues[index]|);
      }
      SmallEnd(m, size);
      addChildValues := false;
      long := lineLength >= RIGHT_MARGIN;
    }

    method WriteInline(m: Map)
      requires Ready() && PrintableMap(m, true) && m.Entry? && !addChildValues && !MultiLine(m, style)
      requires childValues == SmallTexts(m, 0, ArraySize(m))
      modifies this`sout
      ensures var p := Place(Array(m), style, indentString, indented);
              sout == old(sout) + (p.lead + Text(p.node, "")) && indented == p.indented
    {
      hide PlaceInline, ItemsText, PlaceLines, SmallText, TextLengths;
      var size := ArraySize(m);
      SmallTextsAt(m, 0, size, 0);
      assert |childValues| == size;
      sout := sout + "[";
      ghost var all := sout + InlineLeft(m, 0, size, style);
      for index := 0 to size
        invariant !HasLarge(m, index, size)
        invariant sout + ((if 0 < index < size then "," else "") + InlineLeft(m, index, size, style)) == all
      {
        hide InlineLeft;
        var comma := if index > 0 then "," else "";
        var pad := style.Pad();
        SmallTextsAt(m, 0, size, index);
        InlineStep(m, index, size, style);
        ghost var rest := (if index + 1 < size then "," else "") + InlineLeft(m, index + 1, size, style);
        Moved3(sout, comma, pad, childValues[index], rest);
        sout := sout + (comma + pad);
        sout := sout + childValues[index];
      }
      sout := sout + style.Pad();
      sout := sout + "]";
      assert sout == all;
      ghost var items := ItemsText("", PlaceInline(m, 0, size, style), "");
      assert sout == old(sout) + ("" + ("[" + items));
    }

    /** One element on a line of its own, and the comma after it. */
    method WriteLine(m: Map, index: nat, hasChildValue: bool, ghost left: string)
      requires Ready() && PrintableMap(m, true) && m.Entry? && index < ArraySize(m) && !addChildValues && !indented
      requires hasChildValue ==> !HasLarge(m, 0, ArraySize(m)) && childValues == SmallTexts(m, 0, ArraySize(m))
      modifies this
      ensures Ready() && indentString == old(indentString) && !addChildValues && !indented
      ensures hasChildValue ==> childValues == old(childValues)
      ensures var p := Place(At(m, index), style, indentString, true);
              var comma := if index + 1 < ArraySize(m) then "," else "";
              sout + left == old(sout) + (style.NewLine(indentString) + ((p.lead + Text(p.node, "")) + (comma + left)))
      decreases MapNodes(m), 0
    {
      hide Place, HasLarge, SmallTexts, SmallText;
      ghost var p := Place(At(m, index), style, indentString, true);
      var comma := if index + 1 < ArraySize(m) then "," else "";
      Moved3(sout, style.NewLine(indentString), p.lead + Text(p.node, ""), comma, left);
      if hasChildValue {
        SmallTextsAt(m, 0, ArraySize(m), index);
        SmallPlaced(At(m, index), style, indentString, true);
        assert "" + SmallText(At(m, index)) == SmallText(At(m, index));
        WriteWithIndent(childValues[index]);
      } else {
        WriteIndent();
        indented := true;
        WriteValue(At(m, index));
        indented := false;
      }
      sout := sout + comma;
    }

    method WriteLines(m: Map)
      requires Ready() && PrintableMap(m, true) && m.Entry? && !addChildValues && MultiLine(m, style)
      requires childValues == [] || (!HasLarge(m, 0, ArraySize(m)) && childValues == SmallTexts(m, 0, ArraySize(m)))
      modifies this
      ensures Ready() && indentString == old(indentString) && !addChildValues
      ensures var p := Place(Array(m), style, indentString, old(indented));
              sout == old(sout) + (p.lead + Text(p.node, "")) && indented == p.indented
      decreases MapNodes(m), 1
    {
      hide PlaceLines, PlaceInline, ItemsText, SmallText, TextLengths, MultiLine;
      ghost var outer := indentString;
      var size := ArraySize(m);
      WriteWithIndent("[");
      Indent();
      var hasChildValue := childValues != [];
      ghost var all := sout + LinesLeft(m, 0, size, style, outer);
      for index := 0 to size
        invariant Ready() && indentString == outer + style.indentation && !addChildValues && !indented
        invariant hasChildValue ==> !HasLarge(m, 0, size) && childValues == SmallTexts(m, 0, size)
        invariant sout + LinesLeft(m, index, size, style, outer) == all
      {
        hide LinesLeft, HasLarge, SmallTexts;
        LinesStep(m, index, size, style, outer);
        WriteLine(m, index, hasChildValue, LinesLeft(m, index + 1, size, style, outer));
      }
      Unindent(outer);
      WriteWithIndent("]");
      assert sout == all;
      ghost var items := ItemsText("", PlaceLines(m, 0, size, style, outer), "");
      ghost var lead := if old(indented) then "" else style.NewLine(outer);
      assert sout == old(sout) + (lead + ("[" + items));
    }

    /** One member, with the comma behind it unless it is the last. */
    method WriteField(it: Map, ghost outer: string)
      requires Ready() && PrintableMap(it, false) && it.Entry? && Blank(outer)
      requires indentString == outer + style.indentation && !addChildValues && !indented
      modifies this
      ensures Ready() && indentString == old(indentString) && !addChildValues && !indented
      ensures sout + FieldsLeft(it.rest, style, outer) == old(sout) + FieldsLeft(it, style, outer)
      decreases MapNodes(it), 0
    {
      hide Place, FieldsLeft, Quote, Text;
      FieldsLeftStep(it, style, outer);
      ghost var p := Place(it.value, style, indentString, false);
      var comma := if it.rest.Entry? then "," else "";
      ghost var rest3 := comma + FieldsLeft(it.rest, style, outer);
      ghost var rest2 := (p.lead + Text(p.node, "")) + rest3;
      ghost var rest1 := (style.Gap() + ":" + style.Space()) + rest2;
      ghost var before := sout;
      var name := ValueToQuotedString(it.key.s);
      WriteWithIndent(name);
      assert sout + rest1 == before + FieldsLeft(it, style, outer) by { Moved2(before, style.NewLine(indentString), name, rest1); }
      Moved(sout, style.Gap() + ":" + style.Space(), rest2);
      sout := sout + (style.Gap() + ":" + style.Space());
      Moved(sout, p.lead + Text(p.node, ""), rest3);
      WriteValue(it.value);
      Moved(sout, comma, FieldsLeft(it.rest, style, outer));
      sout := sout + comma;
    }

    method WriteObjectValue(m: Map)
      requires Ready() && PrintableMap(m, false) && m.Entry? && !addChildValues
      modifies this
      ensures Ready() && indentString == old(indentString) && !addChildValues
      ensures var p := Place(Object(m), style, indentString, old(indented));
              sout == old(sout) + (p.lead + Text(p.node, "")) && indented == p.indented
      decreases MapNodes(m), 1
    {
      hide PlaceFields, FieldsText, Quote;
      ghost var outer := indentString;
      WriteWithIndent("{");
      Indent();
      var it := m;
      ghost var all := sout + FieldsLeft(m, style, outer);
      while it.Entry?
        invariant Ready() && PrintableMap(it, false) && MapNodes(it) <= MapNodes(m)
        invariant indentString == outer + style.indentation && !addChildValues && !indented
        invariant sout + FieldsLeft(it, style, outer) == all
        decreases it
      {
        hide Place, FieldsLeft;
        WriteField(it, outer);
        it := it.rest;
      }
      Unindent(outer);
      WriteWithIndent("}");
    }
  }

  lemma Moved3(written: string, a: string, b: string, c: string, rest: string)
    ensures written + (a + (b + (c + rest))) == ((written + a) + b + c) + rest == ((written + (a + b)) + c) + rest
    ensures written + (a + (b + (c + rest))) == ((written + (a + b)) + c) + rest
  {
  }

  lemma Moved2(written: string, a: string, b: string, rest: string)
    ensures written + (a + (b + rest)) == (written + (a + b)) + rest
  {
  }
}
