/**
 jsoncpp's Reader as it runs: a position in the document, a stack of values under
 construction and a count of recorded errors, proved against the functions of JsonReader.
 */
module JsonReaderMachine {
  import opened JsonValue
  import opened JsonNumber
  import opened JsonString
  import opened JsonReader

  lemma Tail(s: string, k: nat)
    requires k < |s|
    ensures s[k..] != "" && s[k..][0] == s[k] && s[k..][1..] == s[k + 1..]
  {
  }

  /** A token by its kind and its place in the document. */
  datatype Span = Span(kind: Kind, start: nat, end: nat)

  /** How a reading method ends: by the stack-limit exception or with a verdict. */
  datatype Ended = Thrown | Returned(ok: bool)

  class Reader {
    const doc: string
    const features: Features
    var current: nat
    var errors: nat
    var nodes: seq<Value>

    constructor (doc: string, features: Features)
      ensures this.doc == doc && this.features == features && current == 0 && errors == 0 && nodes == []
    {
      this.doc := doc;
      this.features := features;
      current := 0;
      errors := 0;
      nodes := [];
    }

    ghost predicate InBounds()
      reads this
    {
      current <= |doc|
    }

    /** The unread text. */
    ghost function Rest(): string
      requires InBounds()
      reads this
    {
      doc[current..]
    }

    // ----- characters

    method SkipSpaces()
      requires InBounds()
      modifies this`current
      ensures InBounds() && current >= old(current) && Rest() == JsonReader.SkipSpaces(old(Rest()))
    {
      while current != |doc| && IsSpace(doc[current])
        invariant old(current) <= current <= |doc|
        invariant JsonReader.SkipSpaces(Rest()) == JsonReader.SkipSpaces(old(Rest()))
        decreases |doc| - current
      {
        Tail(doc, current);
        current := current + 1;
      }
      if current < |doc| { Tail(doc, current); }
    }

    method SkipDigits()
      requires InBounds()
      modifies this`current
      ensures InBounds() && current >= old(current) && Rest() == JsonReader.SkipDigits(old(Rest()))
    {
      while current != |doc| && IsDigit(doc[current])
        invariant old(current) <= current <= |doc|
        invariant JsonReader.SkipDigits(Rest()) == JsonReader.SkipDigits(old(Rest()))
        decreases |doc| - current
      {
        Tail(doc, current);
        current := current + 1;
      }
      if current < |doc| { Tail(doc, current); }
    }

    /** Whether the next character is c. */
    predicate At(c: char)
      requires InBounds()
      reads this
      ensures At(c) <==> StartsWith(Rest(), c)
    {
      if current < |doc| then Tail(doc, current); doc[current] == c else false
    }

    method ReadNumber()
      requires InBounds()
      modifies this`current
      ensures InBounds() && current >= old(current) && Rest() == ScanNumber(old(Rest()))
    {
      hide JsonReader.SkipDigits;
      SkipDigits();
      if At('.') {
        var _ := Advance();
        SkipDigits();
      }
      if At('e') || At('E') {
        var _ := Advance();
        if At('+') || At('-') {
          var _ := Advance();
        }
        SkipDigits();
      }
    }

    /** Steps over one character. */
    method Advance() returns (c: char)
      requires InBounds() && current < |doc|
      modifies this`current
      ensures InBounds() && current == old(current) + 1 && Rest() == old(Rest())[1..] && c == old(Rest())[0]
    {
      Tail(doc, current);
      c := doc[current];
      current := current + 1;
    }

    method Match(letters: string) returns (ok: bool)
      requires InBounds()
      modifies this`current
      ensures InBounds() && current >= old(current) && Scan(ok, Rest()) == ScanLiteral(old(Rest()), letters)
    {
      if |doc| - current < |letters| {
        return false;
      }
      var index: nat := |letters|;
      while index > 0
        invariant index <= |letters|
        invariant forall k :: index <= k < |letters| ==> Rest()[k] == letters[k]
      {
        index := index - 1;
        if doc[current + index] != letters[index] {
          assert Rest()[index] != letters[index];
          return false;
        }
        assert Rest()[index] == letters[index];
      }
      assert Rest()[|letters|..] == doc[current + |letters|..];
      current := current + |letters|;
      ok := true;
    }

    method ReadString() returns (ok: bool)
      requires InBounds()
      modifies this`current
      ensures InBounds() && current >= old(current) && Scan(ok, Rest()) == ScanQuote(old(Rest()))
    {
      while current != |doc|
        invariant old(current) <= current <= |doc|
        invariant ScanString(Rest()) == ScanString(old(Rest()))
        decreases |doc| - current
      {
        Tail(doc, current);
        var c := doc[current];
        current := current + 1;
        if c == '\\' {
          if current != |doc| {
            assert doc[current - 1..][2..] == doc[current + 1..];
            current := current + 1;
          } else {
            return false;
          }
        } else if c == '"' {
          return true;
        }
      }
      ok := false;
    }

    method ReadBlockComment() returns (ok: bool)
      requires InBounds()
      modifies this`current
      ensures InBounds() && current >= old(current) && Scan(ok, Rest()) == ScanBlock(old(Rest()))
    {
      while current + 1 < |doc|
        invariant old(current) <= current <= |doc|
        invariant ScanBlock(Rest()) == ScanBlock(old(Rest()))
        decreases |doc| - current
      {
        Tail(doc, current);
        Tail(doc, current + 1);
        if doc[current] == '*' && doc[current + 1] == '/' {
          assert doc[current..][2..] == doc[current + 2..];
          current := current + 2;
          return true;
        }
        current := current + 1;
      }
      if current == |doc| {
        return false;
      }
      Tail(doc, current);
      current := current + 1;
      ok := doc[current - 1] == '/';
    }

    method ReadLineComment()
      requires InBounds()
      modifies this`current
      ensures InBounds() && current >= old(current) && Rest() == ScanLine(old(Rest()))
    {
      while current != |doc|
        invariant old(current) <= current <= |doc|
        invariant ScanLine(Rest()) == ScanLine(old(Rest()))
        decreases |doc| - current
      {
        Tail(doc, current);
        var c := doc[current];
        current := current + 1;
        if c == '\n' {
          return;
        }
        if c == '\r' {
          if At('\n') {
            assert doc[current - 1..][2..] == doc[current + 1..];
            current := current + 1;
          }
          return;
        }
      }
    }

    method ReadComment() returns (ok: bool)
      requires InBounds()
      modifies this`current
      ensures InBounds() && current >= old(current) && Scan(ok, Rest()) == ScanComment(old(Rest()))
    {
      if current == |doc| {
        return false;
      }
      Tail(doc, current);
      var c := doc[current];
      current := current + 1;
      if c == '*' {
        ok := ReadBlockComment();
      } else if c == '/' {
        ReadLineComment();
        ok := true;
      } else {
        ok := false;
      }
    }

    // ----- tokens

    method ReadToken() returns (t: Span)
      requires InBounds()
      modifies this`current
      ensures InBounds() && old(current) <= t.start <= t.end == current
      ensures Lex(old(Rest())) == Token(t.kind, doc[t.start..t.end], Rest())
    {
      SkipSpaces();
      var start := current;
      if current == |doc| {
        return Span(EndOfStream, start, start);
      }
      ghost var text := Rest();
      Tail(doc, current);
      var c := doc[current];
      current := current + 1;
      var kind := ReadTokenFrom(c);
      assert text[..|text| - |Rest()|] == doc[start..current];
      t := Span(kind, start, current);
    }

    method ReadTokenFrom(c: char) returns (kind: Kind)
      requires InBounds()
      modifies this`current
      ensures InBounds() && current >= old(current)
      ensures LexFrom(c, old(Rest())) == (kind, Rest())
    {
      var ok := true;
      match c {
      case '{' => kind := ObjectBegin;
      case '}' => kind := ObjectEnd;
      case '[' => kind := ArrayBegin;
      case ']' => kind := ArrayEnd;
      case '"' => kind := StringToken; ok := ReadString();
      case '/' => kind := Comment; ok := ReadComment();
      case 't' => kind := TrueToken; ok := Match("rue");
      case 'f' => kind := FalseToken; ok := Match("alse");
      case 'n' => kind := NullToken; ok := Match("ull");
      case ',' => kind := Separator;
      case ':' => kind := Colon;
      case _ =>
        if IsDigit(c) || c == '-' {
          kind := NumberToken;
          ReadNumber();
        } else if c as int == 0 {
          kind := EndOfStream;
        } else {
          kind := ErrorToken;
        }
      }
      if !ok {
        kind := ErrorToken;
      }
    }

    method ReadPastComments() returns (t: Span)
      requires InBounds()
      modifies this`current
      ensures InBounds() && old(current) <= t.start <= t.end == current
      ensures LexPastComments(old(Rest())) == Token(t.kind, doc[t.start..t.end], Rest())
    {
      hide Lex;
      t := ReadToken();
      while t.kind.Comment?
        invariant InBounds() && old(current) <= t.start <= t.end == current
        invariant if t.kind.Comment? then LexPastComments(Rest()) == LexPastComments(old(Rest()))
                  else LexPastComments(old(Rest())) == Token(t.kind, doc[t.start..t.end], Rest())
        decreases |doc| - current, t.kind.Comment?
      {
        t := ReadToken();
      }
    }

    method SkipCommentTokens() returns (t: Span)
      requires InBounds()
      modifies this`current
      ensures InBounds() && old(current) <= t.start <= t.end == current
      ensures NextToken(old(Rest()), features) == Token(t.kind, doc[t.start..t.end], Rest())
    {
      if features.allowComments {
        t := ReadPastComments();
      } else {
        t := ReadToken();
      }
    }

    method RecoverFromError(until: Kind)
      requires InBounds()
      modifies this`current
      ensures InBounds() && current >= old(current) && Rest() == Recover(old(Rest()), until)
    {
      hide Lex;
      var t := ReadToken();
      while t.kind != until && !t.kind.EndOfStream?
        invariant InBounds() && old(current) <= current
        invariant Recover(old(Rest()), until) == if t.kind == until || t.kind.EndOfStream? then Rest() else Recover(Rest(), until)
        decreases |doc| - current, t.kind != until && !t.kind.EndOfStream?
      {
        t := ReadToken();
      }
    }

    // ----- values

    /** The state a reading method must leave for a given outcome. */
    ghost predicate Reached(e: Ended, r: Outcome, before: seq<Value>, errorsBefore: nat)
      requires before != []
      reads this
    {
      InBounds() &&
      match r
      case Throw => e.Thrown?
      case Done(ok, v, rest, n) =>
        && e == Returned(ok) && Rest() == rest
        && nodes == before[..|before| - 1] + [v] && errors == errorsBefore + n
    }

    method SetTop(v: Value)
      requires nodes != []
      modifies this`nodes
      ensures nodes == old(nodes)[..|old(nodes)| - 1] + [v]
    {
      nodes := nodes[..|nodes| - 1] + [v];
    }

    /** Records an error and skips to the closing token. */
    method AddErrorAndRecover(until: Kind) returns (e: Ended)
      requires InBounds()
      modifies this`current, this`errors
      ensures InBounds() && e == Returned(false)
      ensures Rest() == Recover(old(Rest()), until) && errors == old(errors) + 1
    {
      errors := errors + 1;
      RecoverFromError(until);
      e := Returned(false);
    }

    /** Stores a decoded scalar, or records that there was none. */
    method Store(v: Option<Value>) returns (e: Ended)
      requires InBounds() && nodes != []
      modifies this`nodes, this`errors
      ensures Reached(e, Scalar(v, old(nodes)[|old(nodes)| - 1], old(Rest())), old(nodes), old(errors))
    {
      match v
      case Some(x) =>
        SetTop(x);
        e := Returned(true);
      case None =>
        errors := errors + 1;
        e := Returned(false);
        assert nodes == nodes[..|nodes| - 1] + [nodes[|nodes| - 1]];
    }

    method DecodeNumberToken(t: Span) returns (v: Option<Value>)
      requires t.start <= t.end <= |doc|
      ensures v == NumberOf(doc[t.start..t.end], features)
    {
      var d := DecodeNumber(doc[t.start..t.end]);
      match d
      case Integer(x) => v := Some(x);
      case AsDouble =>
        var x := features.toDouble(doc[t.start..t.end]);
        v := if x.Some? then Some(Real(x.value)) else None;
    }

    method ReadValue() returns (e: Ended)
      requires InBounds() && nodes != []
      modifies this
      ensures Reached(e, JsonReader.ReadValue(old(Rest()), |old(nodes)|, old(nodes)[|old(nodes)| - 1], features), old(nodes), old(errors))
      decreases |doc| - current, 0
    {
      hide NextToken, ReadMembers, JsonReader.ReadArray, Decode, NumberOf;
      if |nodes| > STACK_LIMIT {
        return Thrown;
      }
      var t := SkipCommentTokens();
      if t.kind.ObjectBegin? {
        e := ReadObject();
      } else if t.kind.ArrayBegin? {
        e := ReadArray();
      } else if t.kind.NumberToken? {
        var v := DecodeNumberToken(t);
        e := Store(v);
      } else if t.kind.StringToken? {
        var d := DecodeString(Unquoted(doc[t.start..t.end]));
        e := Store(if d.Some? then Some(Str(d.value)) else None);
      } else if t.kind.TrueToken? {
        e := Store(Some(Bool(true)));
      } else if t.kind.FalseToken? {
        e := Store(Some(Bool(false)));
      } else if t.kind.NullToken? {
        e := Store(Some(Null));
      } else if features.allowDroppedNull && IsMark(t.kind) {
        current := current - 1;
        assert Rest() == doc[t.start..t.end] + doc[t.end..];
        e := Store(Some(Null));
      } else {
        e := Store(None);
      }
    }

    /** Reads a child that starts out as `slot` on top of the stack, and takes it off again. */
    method ReadChild(slot: Value) returns (e: Ended, v: Value)
      requires InBounds()
      modifies this
      ensures InBounds()
      ensures match JsonReader.ReadValue(old(Rest()), |old(nodes)| + 1, slot, features)
              case Throw => e.Thrown?
              case Done(ok, x, rest, n) =>
                e == Returned(ok) && v == x && Rest() == rest && nodes == old(nodes) && errors == old(errors) + n
      decreases |doc| - current, 1
    {
      hide JsonReader.ReadValue;
      ghost var before := nodes;
      nodes := nodes + [slot];
      e := ReadValue();
      v := slot;
      if !e.Thrown? {
        v := nodes[|nodes| - 1];
        nodes := nodes[..|nodes| - 1];
      }
    }

    method ReadArray() returns (e: Ended)
      requires InBounds() && nodes != []
      modifies this
      ensures Reached(e, JsonReader.ReadArray(old(Rest()), |old(nodes)|, features), old(nodes), old(errors))
      decreases |doc| - current, 4
    {
      hide ReadElements;
      SetTop(Array(Empty));
      SkipSpaces();
      if At(']') {
        var _ := Advance();
        e := Returned(true);
      } else {
        e := ReadElementsLoop();
      }
    }

    method ReadElementsLoop() returns (e: Ended)
      requires InBounds() && nodes != []
      modifies this
      ensures Reached(e, ReadElements(old(Rest()), Empty, 0, |old(nodes)|, features), old(nodes), old(errors))
      decreases |doc| - current, 3
    {
      hide ReadElements;
      ghost var before := nodes;
      var m := Empty;
      var index := 0;
      var more := true;
      e := Thrown;
      while more
        invariant more ==> InBounds() && old(current) <= current && errors == old(errors)
        invariant more ==> |nodes| == |before| && nodes[..|nodes| - 1] == before[..|before| - 1]
        invariant more ==> ReadElements(Rest(), m, index, |before|, features) == ReadElements(old(Rest()), Empty, 0, |before|, features)
        invariant !more ==> Reached(e, ReadElements(old(Rest()), Empty, 0, |before|, features), before, old(errors))
        decreases more, |doc| - current
      {
        more, e, m := ReadElement(m, index);
        index := index + 1;
      }
    }

    /** One round of the array loop: an element and the separator after it. */
    method ReadElement(m: Map, index: nat) returns (more: bool, e: Ended, m': Map)
      requires InBounds() && nodes != []
      modifies this
      ensures !more ==> Reached(e, ReadElements(old(Rest()), m, index, |old(nodes)|, features), old(nodes), old(errors))
      ensures more ==> InBounds() && old(current) < current && errors == old(errors)
                       && nodes == old(nodes)[..|old(nodes)| - 1] + [Array(m')]
                       && ReadElements(Rest(), m', index + 1, |old(nodes)|, features)
                          == ReadElements(old(Rest()), m, index, |old(nodes)|, features)
      decreases |doc| - current, 2
    {
      hide JsonReader.ReadValue, LexPastComments, Put, Recover;
      more := false;
      m' := m;
      var v;
      e, v := ReadChild(Null);
      if e.Thrown? {
        return;
      }
      m' := Put(m, Index(index), v);
      SetTop(Array(m'));
      if !e.ok {
        RecoverFromError(ArrayEnd);
        return;
      }
      var t := ReadPastComments();
      if t.kind.ArrayEnd? {
        e := Returned(true);
      } else if !t.kind.Separator? {
        e := AddErrorAndRecover(ArrayEnd);
      } else {
        more := true;
      }
    }

    method ReadObject() returns (e: Ended)
      requires InBounds() && nodes != []
      modifies this
      ensures Reached(e, ReadMembers(old(Rest()), Empty, "", |old(nodes)|, features), old(nodes), old(errors))
      decreases |doc| - current, 4
    {
      hide ReadMembers;
      ghost var before := nodes;
      SetTop(Object(Empty));
      var m := Empty;
      var name := "";
      var more := true;
      e := Thrown;
      while more
        invariant more ==> InBounds() && old(current) <= current && errors == old(errors)
        invariant more ==> |nodes| == |before| && nodes == before[..|before| - 1] + [Object(m)]
        invariant more ==> ReadMembers(Rest(), m, name, |before|, features) == ReadMembers(old(Rest()), Empty, "", |before|, features)
        invariant !more ==> Reached(e, ReadMembers(old(Rest()), Empty, "", |before|, features), before, old(errors))
        decreases more, |doc| - current
      {
        more, e, m, name := ReadMember(m, name);
      }
    }

    /** One round of the object loop: a member and the separator after it. */
    method ReadMember(m: Map, name: string) returns (more: bool, e: Ended, m': Map, name': string)
      requires InBounds() && nodes != [] && nodes[|nodes| - 1] == Object(m)
      modifies this
      ensures !more ==> Reached(e, ReadMembers(old(Rest()), m, name, |old(nodes)|, features), old(nodes), old(errors))
      ensures more ==> InBounds() && old(current) < current && errors == old(errors)
                       && nodes == old(nodes)[..|old(nodes)| - 1] + [Object(m')]
                       && ReadMembers(Rest(), m', name', |old(nodes)|, features)
                          == ReadMembers(old(Rest()), m, name, |old(nodes)|, features)
      decreases |doc| - current, 3
    {
      hide JsonReader.ReadValue, JsonReader.ReadMember, LexPastComments, Lex, Recover, Decode;
      more := false;
      m', name' := m, name;
      var t := ReadPastComments();
      if t.kind.ObjectEnd? && name == "" {
        e := Returned(true);
        return;
      }
      if !t.kind.StringToken? {
        e := AddErrorAndRecover(ObjectEnd);
        return;
      }
      var key := DecodeString(Unquoted(doc[t.start..t.end]));
      if key.None? {
        e := AddErrorAndRecover(ObjectEnd);
        return;
      }
      name' := key.value;
      var colon := ReadToken();
      if !colon.kind.Colon? {
        e := AddErrorAndRecover(ObjectEnd);
        return;
      }
      more, e, m' := ReadMemberValue(m, name');
    }

    /** The value of a member and the separator after it. */
    method ReadMemberValue(m: Map, name: string) returns (more: bool, e: Ended, m': Map)
      requires InBounds() && nodes != [] && nodes[|nodes| - 1] == Object(m)
      modifies this
      ensures !more ==> Reached(e, JsonReader.ReadMember(old(Rest()), m, name, |old(nodes)|, features), old(nodes), old(errors))
      ensures more ==> InBounds() && old(current) <= current && errors == old(errors)
                       && nodes == old(nodes)[..|old(nodes)| - 1] + [Object(m')]
                       && ReadMembers(Rest(), m', name, |old(nodes)|, features)
                          == JsonReader.ReadMember(old(Rest()), m, name, |old(nodes)|, features)
      decreases |doc| - current, 3
    {
      hide JsonReader.ReadValue, ReadMembers, LexPastComments, Lex, Put, Find, Recover;
      more, m' := false, m;
      var v;
      e, v := ReadChild(Find(m, Name(name)));
      if e.Thrown? {
        return;
      }
      m' := Put(m, Name(name), v);
      SetTop(Object(m'));
      if !e.ok {
        RecoverFromError(ObjectEnd);
        return;
      }
      var comma := ReadToken();
      if !comma.kind.ObjectEnd? && !comma.kind.Separator? && !comma.kind.Comment? {
        e := AddErrorAndRecover(ObjectEnd);
        return;
      }
      if comma.kind.Comment? {
        comma := ReadPastComments();
      }
      if comma.kind.ObjectEnd? {
        e := Returned(true);
      } else {
        more := true;
      }
    }

    /**
     Parses the whole document.  Either the stack limit is exceeded, or the node stack is back
     to the root alone and the verdict is true exactly when no error was recorded.
     */
    method Parse(initial: Value) returns (e: Ended)
      modifies this
      ensures InBounds()
      ensures match JsonReader.Parse(doc, initial, features)
              case None => e.Thrown?
              case Some(p) => e == Returned(p.ok) && nodes == [p.root] && errors == p.errors && (p.ok <==> errors == 0)
    {
      hide JsonReader.ReadValue, NextToken;
      current := 0;
      errors := 0;
      nodes := [initial];
      assert Rest() == doc;
      e := ReadValue();
      if e.Thrown? {
        return;
      }
      var _ := SkipCommentTokens();
      if features.strictRoot && !nodes[0].Array? && !nodes[0].Object? {
        errors := errors + 1;
        e := Returned(false);
      }
    }
  }
}
