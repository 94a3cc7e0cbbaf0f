/**
 What a handler is given while minijson reads a text: field names and values as they are
 parsed, and the containers entered and left, up to the end of the document or to the
 parse error.
 */
module MiniJsonEvents {
  import opened MiniJson

  /** A value as a handler is given it; a container comes without its contents. */
  datatype Handed = Leaf(v: Tree) | Opened(isArray: bool)

  datatype Event =
    | Enter
    | Leave
    | Field(name: string, given: Handed)
    | Element(given: Handed)

  // ----- events of a text

  /** What is handed over for a value whose first character has been read, once it has been read. */
  function Handing(c: char, s: string, level: nat, d: ToDouble): seq<Handed> {
    if c == '{' then [Opened(false)]
    else if c == '[' then [Opened(true)]
    else
      var v := Value(c, s, level, d);
      if v.Ok? then [Leaf(v.value)] else []
  }

  /** Events inside a value, after it was handed over. */
  function InsideEvents(c: char, s: string, level: nat, d: ToDouble): seq<Event>
    decreases |s|, 5
  {
    if c == '{' then ObjectEvents(s, level + 1, d)
    else if c == '[' then ArrayEvents(s, level + 1, d)
    else []
  }

  /** An object or array past its opening bracket, with the check of the level before it. */
  function ObjectEvents(s: string, level: nat, d: ToDouble): seq<Event>
    decreases |s|, 3
  {
    if level > NESTING_LIMIT then [] else [Enter] + (MembersOrEnd(s, level, d) + Leaving(ObjectBody(s, level, d).Ok?))
  }

  function Leaving(ok: bool): seq<Event> {
    if ok then [Leave] else []
  }

  function MembersOrEnd(s: string, level: nat, d: ToDouble): seq<Event>
    decreases |s|, 2
  {
    var t := SkipSpaces(s);
    if Peek(t) == '}' then [] else MembersEvents(t, level, d)
  }

  function MembersEvents(s: string, level: nat, d: ToDouble): seq<Event>
    decreases |s|, 1
  {
    if Peek(s) != '"' then []
    else
      var name := Quoted(s[1..], 0);
      if name.Err? then []
      else
        var colon := SkipSpaces(name.rest);
        if Peek(colon) != ':' then []
        else FieldEvents(CString(name.value), Drop(colon), level, d)
  }

  /** From a field value on. */
  function FieldEvents(name: string, s: string, level: nat, d: ToDouble): seq<Event>
    decreases |s|, 6
  {
    var t := SkipSpaces(s);
    var h := Handing(Peek(t), Drop(t), level, d);
    if h == [] then []
    else
      var x := Value(Peek(t), Drop(t), level, d);
      [Field(name, h[0])] + (InsideEvents(Peek(t), Drop(t), level, d)
                             + if x.Err? || t == "" then [] else CommaEvents(x.rest, level, d))
  }

  function CommaEvents(s: string, level: nat, d: ToDouble): seq<Event>
    decreases |s|, 2
  {
    var t := SkipSpaces(s);
    if Peek(t) != ',' then [] else MembersEvents(SkipSpaces(Drop(t)), level, d)
  }

  function ArrayEvents(s: string, level: nat, d: ToDouble): seq<Event>
    decreases |s|, 3
  {
    if level > NESTING_LIMIT then [] else [Enter] + (ItemsOrEnd(s, level, d) + Leaving(ArrayBody(s, level, d).Ok?))
  }

  function ItemsOrEnd(s: string, level: nat, d: ToDouble): seq<Event>
    decreases |s|, 2
  {
    var t := SkipSpaces(s);
    if Peek(t) == ']' then [] else ItemsEvents(t, level, d)
  }

  /** From an element on, spaces skipped. */
  function ItemsEvents(s: string, level: nat, d: ToDouble): seq<Event>
    decreases |s|, 1
  {
    if s == "" then []
    else
      var h := Handing(s[0], s[1..], level, d);
      if h == [] then []
      else
        var x := Value(s[0], s[1..], level, d);
        [Element(h[0])] + (InsideEvents(s[0], s[1..], level, d)
                           + if x.Err? then [] else ItemCommaEvents(x.rest, level, d))
  }

  function ItemCommaEvents(s: string, level: nat, d: ToDouble): seq<Event>
    decreases |s|, 2
  {
    var t := SkipSpaces(s);
    if Peek(t) != ',' then [] else ItemsEvents(SkipSpaces(Drop(t)), level, d)
  }

  /** Everything a handler sees of a document, accepted or not. */
  function Events(s: string, obj: bool, d: ToDouble): seq<Event> {
    var t := SkipSpaces(s);
    if Peek(t) != (if obj then '{' else '[') then [Enter]
    else if obj then ObjectEvents(Drop(t), 0, d) else ArrayEvents(Drop(t), 0, d)
  }

  // ----- of an accepted document, the events are a walk of its tree

  function Hand(v: Tree): Handed {
    if v.Array? then Opened(true) else if v.Object? then Opened(false) else Leaf(v)
  }

  function Walk(v: Tree): seq<Event> {
    match v
    case Array(items) => [Enter] + (WalkItems(items) + [Leave])
    case Object(ms) => [Enter] + (WalkMembers(ms) + [Leave])
    case _ => []
  }

  function WalkItems(items: Items): seq<Event> {
    if items.NoItems? then [] else [Element(Hand(items.value))] + (Walk(items.value) + WalkItems(items.rest))
  }

  function WalkMembers(ms: Members): seq<Event> {
    if ms.NoMembers? then [] else [Field(ms.name, Hand(ms.value))] + (Walk(ms.value) + WalkMembers(ms.rest))
  }

  lemma NoContainer(text: string, d: ToDouble)
    ensures var v := Scalar(text, d); v.Some? ==> !v.value.Array? && !v.value.Object?
  {
    hide ParseLong;
  }

  lemma {:induction false} ValueWalks(c: char, s: string, level: nat, d: ToDouble)
    requires Value(c, s, level, d).Ok?
    ensures var v := Value(c, s, level, d).value;
            Handing(c, s, level, d) == [Hand(v)] && InsideEvents(c, s, level, d) == Walk(v)
    decreases |s|, 5
  {
    hide ObjectBody, ArrayBody, ObjectEvents, ArrayEvents, Quoted, Unquoted, Scalar, CString, WalkItems, WalkMembers;
    if c == '{' {
      ObjectWalks(s, level + 1, d);
    } else if c == '[' {
      ArrayWalks(s, level + 1, d);
    } else if c != '"' {
      NoContainer(if c == NUL then Unquoted(s).value else [c] + Unquoted(s).value, d);
    }
  }

  lemma {:induction false} ObjectWalks(s: string, level: nat, d: ToDouble)
    requires ObjectBody(s, level, d).Ok? && level <= NESTING_LIMIT
    ensures var v := ObjectBody(s, level, d).value; v.Object? && ObjectEvents(s, level, d) == Walk(v)
    decreases |s|, 3
  {
    hide MembersFrom, MembersEvents, WalkMembers;
    var t := SkipSpaces(s);
    if Peek(t) == '}' { NothingWalked(); } else { MembersWalk(t, level, d); }
  }

  lemma NothingWalked()
    ensures WalkMembers(NoMembers) == [] && WalkItems(NoItems) == []
  {
  }

  lemma {:induction false} MembersWalk(s: string, level: nat, d: ToDouble)
    requires MembersFrom(s, level, d).Ok?
    ensures MembersEvents(s, level, d) == WalkMembers(MembersFrom(s, level, d).value)
    decreases |s|, 1
  {
    hide Value, Quoted, CString, SkipSpaces, InsideEvents, Walk, Hand, Handing;
    var name := Quoted(s[1..], 0);
    var colon := SkipSpaces(name.rest);
    var t := SkipSpaces(Drop(colon));
    ValueWalks(Peek(t), Drop(t), level, d);
    Unterminated(level, d);
    var x := Value(Peek(t), Drop(t), level, d);
    var comma := SkipSpaces(x.rest);
    assert MembersEvents(s, level, d) == FieldEvents(CString(name.value), Drop(colon), level, d);
    if Peek(comma) == ',' {
      MembersWalk(SkipSpaces(Drop(comma)), level, d);
    } else {
      NothingWalked();
    }
  }

  lemma Unterminated(level: nat, d: ToDouble)
    ensures Value(NUL, "", level, d).Err?
  {
  }

  lemma {:induction false} ArrayWalks(s: string, level: nat, d: ToDouble)
    requires ArrayBody(s, level, d).Ok? && level <= NESTING_LIMIT
    ensures var v := ArrayBody(s, level, d).value; v.Array? && ArrayEvents(s, level, d) == Walk(v)
    decreases |s|, 3
  {
    hide ItemsFrom, ItemsEvents, WalkItems;
    var t := SkipSpaces(s);
    if Peek(t) == ']' { NothingWalked(); } else { ItemsWalk(t, level, d); }
  }

  lemma {:induction false} ItemsWalk(s: string, level: nat, d: ToDouble)
    requires ItemsFrom(s, level, d).Ok?
    ensures ItemsEvents(s, level, d) == WalkItems(ItemsFrom(s, level, d).value)
    decreases |s|, 1
  {
    hide Value, SkipSpaces, InsideEvents, Walk, Hand, Handing;
    ValueWalks(s[0], s[1..], level, d);
    var x := Value(s[0], s[1..], level, d);
    var comma := SkipSpaces(x.rest);
    if Peek(comma) == ',' {
      ItemsWalk(SkipSpaces(Drop(comma)), level, d);
    } else {
      NothingWalked();
    }
  }

  /** Of an accepted document, a handler sees exactly the tree, in order. */
  lemma EventsWalk(s: string, obj: bool, d: ToDouble)
    ensures var r := Document(s, obj, d); r.Ok? ==> Events(s, obj, d) == Walk(r.value)
  {
    hide ObjectBody, ArrayBody, ObjectEvents, ArrayEvents, Walk;
    var t := SkipSpaces(s);
    if Document(s, obj, d).Ok? {
      if obj { ObjectWalks(Drop(t), 0, d); } else { ArrayWalks(Drop(t), 0, d); }
    }
  }

  // ----- containers active at once

  function Change(e: Event): int {
    if e.Enter? then 1 else if e.Leave? then -1 else 0
  }

  /** Containers entered and not left. */
  function Active(es: seq<Event>): int {
    if es == [] then 0 else Change(es[0]) + Active(es[1..])
  }

  /** From `active` containers on, never more than the limit and one. */
  predicate Within(es: seq<Event>, active: int) {
    active <= NESTING_LIMIT + 1 && (es == [] || Within(es[1..], active + Change(es[0])))
  }

  lemma {:induction false} WithinPrefix(es: seq<Event>, active: int, k: nat)
    requires Within(es, active) && k <= |es|
    ensures active + Active(es[..k]) <= NESTING_LIMIT + 1
    decreases k
  {
    if k > 0 {
      assert es[..k][1..] == es[1..][..k - 1];
      WithinPrefix(es[1..], active + Change(es[0]), k - 1);
    }
  }

  lemma {:induction false} WithinJoin(a: seq<Event>, b: seq<Event>, active: int)
    requires Within(a, active) && Within(b, active + Active(a))
    ensures Within(a + b, active) && Active(a + b) == Active(a) + Active(b)
    decreases |a|
  {
    if a == [] {
      assert a + b == b;
    } else {
      assert (a + b)[1..] == a[1..] + b;
      WithinJoin(a[1..], b, active + Change(a[0]));
    }
  }

  lemma WithinOne(e: Event, active: int)
    requires active <= NESTING_LIMIT + 1 && active + Change(e) <= NESTING_LIMIT + 1
    ensures Within([e], active) && Active([e]) == Change(e)
  {
    assert [e][1..] == [];
  }

  lemma WithinNone(active: int)
    requires active <= NESTING_LIMIT + 1
    ensures Within([], active) && Active([]) == 0
  {
  }

  /** Events that stay within the limit and, unless they end in an error, leave what they enter. */
  predicate Fits(es: seq<Event>, active: int, ok: bool) {
    Within(es, active) && (ok ==> Active(es) == 0)
  }

  lemma {:induction false} InsideFits(c: char, s: string, level: nat, d: ToDouble)
    requires level <= NESTING_LIMIT
    ensures Fits(InsideEvents(c, s, level, d), level + 1, Value(c, s, level, d).Ok?)
    decreases |s|, 5
  {
    hide ObjectBody, ArrayBody, ObjectEvents, ArrayEvents, Within, Active;
    WithinNone(level + 1);
    if c == '{' { ObjectFits(s, level + 1, d); } else if c == '[' { ArrayFits(s, level + 1, d); }
  }

  lemma WithinEnds(es: seq<Event>, active: int)
    requires Within(es, active)
    ensures active + Active(es) <= NESTING_LIMIT + 1
  {
    WithinPrefix(es, active, |es|);
    assert es[..|es|] == es;
  }

  /** A container's events around those inside it. */
  lemma AroundFits(es: seq<Event>, level: nat, ok: bool)
    requires level <= NESTING_LIMIT && Fits(es, level + 1, ok)
    ensures Fits([Enter] + (es + Leaving(ok)), level, ok)
  {
    hide Within, Active;
    WithinEnds(es, level + 1);
    if ok { WithinOne(Leave, level + 1); } else { WithinNone(level + 1 + Active(es)); }
    WithinJoin(es, Leaving(ok), level + 1);
    WithinOne(Enter, level);
    WithinJoin([Enter], es + Leaving(ok), level);
  }

  /** A value's events, then, when it was read, those of the rest. */
  lemma ThenFits(e: Event, inside: seq<Event>, ok: bool, rest: seq<Event>, restOk: bool, active: int)
    requires active <= NESTING_LIMIT + 1 && Change(e) == 0 && Fits(inside, active, ok)
    requires if ok then Fits(rest, active, restOk) else rest == [] && !restOk
    ensures Fits([e] + (inside + rest), active, restOk)
  {
    hide Within, Active;
    WithinEnds(inside, active);
    if !ok { WithinNone(active + Active(inside)); }
    WithinJoin(inside, rest, active);
    WithinOne(e, active);
    WithinJoin([e], inside + rest, active);
  }

  lemma NoneFits(active: int)
    requires active <= NESTING_LIMIT + 1
    ensures Fits([], active, true) && Fits([], active, false)
  {
  }

  lemma {:induction false} ObjectFits(s: string, level: nat, d: ToDouble)
    ensures level <= NESTING_LIMIT ==> Fits(ObjectEvents(s, level, d), level, ObjectBody(s, level, d).Ok?)
    ensures level > NESTING_LIMIT ==> ObjectEvents(s, level, d) == []
    decreases |s|, 3
  {
    hide Fits, MembersFrom, MembersEvents;
    if level <= NESTING_LIMIT {
      var t := SkipSpaces(s);
      if Peek(t) == '}' { NoneFits(level + 1); } else { MembersFit(t, level, d); }
      AroundFits(MembersOrEnd(s, level, d), level, ObjectBody(s, level, d).Ok?);
    }
  }

  lemma {:induction false} MembersFit(s: string, level: nat, d: ToDouble)
    requires level <= NESTING_LIMIT
    ensures Fits(MembersEvents(s, level, d), level + 1, MembersFrom(s, level, d).Ok?)
    decreases |s|, 1
  {
    hide Value, Quoted, CString, SkipSpaces, InsideEvents, Handing, Fits, FieldEvents;
    NoneFits(level + 1);
    if Peek(s) == '"' {
      var name := Quoted(s[1..], 0);
      if name.Ok? {
        var colon := SkipSpaces(name.rest);
        if Peek(colon) == ':' {
          FieldFits(s, level, d);
        }
      }
    }
  }

  lemma {:induction false} FieldFits(s: string, level: nat, d: ToDouble)
    requires level <= NESTING_LIMIT && Peek(s) == '"' && Quoted(s[1..], 0).Ok?
    requires Peek(SkipSpaces(Quoted(s[1..], 0).rest)) == ':'
    ensures var name := Quoted(s[1..], 0);
            Fits(FieldEvents(CString(name.value), Drop(SkipSpaces(name.rest)), level, d), level + 1, MembersFrom(s, level, d).Ok?)
    decreases |s|, 0
  {
    hide Value, Quoted, CString, SkipSpaces, InsideEvents, Fits, MembersEvents;
    NoneFits(level + 1);
    var name := Quoted(s[1..], 0);
    var t := SkipSpaces(Drop(SkipSpaces(name.rest)));
    var x := Value(Peek(t), Drop(t), level, d);
    Unterminated(level, d);
    InsideFits(Peek(t), Drop(t), level, d);
    var h := Handing(Peek(t), Drop(t), level, d);
    if h != [] {
      var rest := if x.Err? then [] else CommaEvents(x.rest, level, d);
      if x.Ok? {
        var comma := SkipSpaces(x.rest);
        if Peek(comma) == ',' { MembersFit(SkipSpaces(Drop(comma)), level, d); }
      }
      ThenFits(Field(CString(name.value), h[0]), InsideEvents(Peek(t), Drop(t), level, d), x.Ok?, rest, MembersFrom(s, level, d).Ok?, level + 1);
    }
  }

  lemma {:induction false} ArrayFits(s: string, level: nat, d: ToDouble)
    ensures level <= NESTING_LIMIT ==> Fits(ArrayEvents(s, level, d), level, ArrayBody(s, level, d).Ok?)
    ensures level > NESTING_LIMIT ==> ArrayEvents(s, level, d) == []
    decreases |s|, 3
  {
    hide Fits, ItemsFrom, ItemsEvents;
    if level <= NESTING_LIMIT {
      var t := SkipSpaces(s);
      if Peek(t) == ']' { NoneFits(level + 1); } else { ItemsFit(t, level, d); }
      AroundFits(ItemsOrEnd(s, level, d), level, ArrayBody(s, level, d).Ok?);
    }
  }

  lemma {:induction false} ItemsFit(s: string, level: nat, d: ToDouble)
    requires level <= NESTING_LIMIT
    ensures Fits(ItemsEvents(s, level, d), level + 1, ItemsFrom(s, level, d).Ok?)
    decreases |s|, 1
  {
    hide Value, SkipSpaces, InsideEvents, Fits;
    NoneFits(level + 1);
    if s != "" {
      var x := Value(s[0], s[1..], level, d);
      InsideFits(s[0], s[1..], level, d);
      var h := Handing(s[0], s[1..], level, d);
      if h != [] {
        var rest := if x.Err? then [] else ItemCommaEvents(x.rest, level, d);
        if x.Ok? {
          var comma := SkipSpaces(x.rest);
          if Peek(comma) == ',' { ItemsFit(SkipSpaces(Drop(comma)), level, d); }
        }
        ThenFits(Element(h[0]), InsideEvents(s[0], s[1..], level, d), x.Ok?, rest, ItemsFrom(s, level, d).Ok?, level + 1);
      }
    }
  }

  /** Whatever the text, and at every moment of the run: no more than 33 containers are active, and none after success. */
  lemma ActiveWithin(s: string, obj: bool, d: ToDouble, k: nat)
    requires k <= |Events(s, obj, d)|
    ensures Active(Events(s, obj, d)[..k]) <= NESTING_LIMIT + 1
    ensures Document(s, obj, d).Ok? ==> Active(Events(s, obj, d)) == 0
  {
    hide ObjectEvents, ArrayEvents, ObjectBody, ArrayBody, Within, Active;
    var t := SkipSpaces(s);
    if Peek(t) != (if obj then '{' else '[') {
      WithinOne(Enter, 0);
    } else if obj {
      ObjectFits(Drop(t), 0, d);
    } else {
      ArrayFits(Drop(t), 0, d);
    }
    WithinPrefix(Events(s, obj, d), 0, k);
  }
}
