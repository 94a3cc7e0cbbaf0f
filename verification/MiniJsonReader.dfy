/**
 minijson's reader as it runs: one context reads a buffer and writes the decoded strings
 either into a second buffer or over the text it has already read.  Every method is proved
 against the functions of MiniJson and MiniJsonEvents on the text as it was, whether the
 two buffers are one or not: writing never reaches unread text, what was written stays, and
 the handler is given the same values.
 */
module MiniJsonReader {
  import opened JsonString
  import opened MiniJson
  import opened MiniJsonEvents
  import opened MiniJsonMachine

  // ----- the context

  /** A value, or a parse error with its offset. */
  datatype Outcome<T> = Good(value: T) | Bad(reason: Reason, offset: nat)

  datatype ObjectProgress = ObjectAt(state: ObjectState, members: Members, name: string, c: char, mustRead: bool)

  datatype ArrayProgress = ArrayAt(state: ArrayState, items: Items, c: char, mustRead: bool)

  class Context {
    const input: array<char>
    const output: array<char>
    ghost const text: string
    var readOffset: nat
    var writeOffset: nat
    var current: nat
    var status: Nested
    var level: nat
    /** What the handler has been given. */
    var events: seq<Event>
    ghost var written: string

    ghost predicate Valid()
      reads this`readOffset, this`writeOffset, this`written, this`current, input, output
    {
      current <= writeOffset <= readOffset && Buffers()
    }

    /** Unread text is as it was, and what was written is still there. */
    ghost predicate Buffers()
      reads this`readOffset, this`writeOffset, this`written, input, output
    {
      && |text| == input.Length == output.Length
      && writeOffset <= readOffset <= |text|
      && (forall i :: readOffset <= i < |text| ==> input[i] == text[i])
      && |written| == writeOffset
      && (forall i :: 0 <= i < writeOffset ==> output[i] == written[i])
    }

    /** Text not read yet. */
    ghost function Unread(): string
      reads this`readOffset
    {
      if readOffset <= |text| then text[readOffset..] else ""
    }

    /** Room for writing without reaching unread text. */
    ghost predicate Room(n: nat)
      reads this
    {
      writeOffset + n <= readOffset
    }

    function ErrorOffset(): nat
      reads this`readOffset
    {
      if readOffset != 0 then readOffset - 1 else 0
    }

    /** The outcome is the one the functions give, and the rest of their result is unread. */
    ghost predicate Gives<T>(o: Outcome<T>, r: Result<T>)
      reads this
    {
      Unread() == r.rest && o == if r.Ok? then Good(r.value) else Bad(r.reason, ErrorOffset())
    }

    /** Strings are written over the text itself. */
    constructor InPlace(buffer: array<char>)
      ensures Valid() && input == buffer && output == buffer && text == buffer[..] && Unread() == text
      ensures written == "" && level == 0 && status == NotNested && events == []
    {
      input, output, text := buffer, buffer, buffer[..];
      readOffset, writeOffset, current, written := 0, 0, 0, "";
      status, level, events := NotNested, 0, [];
    }

    /** Strings are written to a buffer of their own. */
    constructor Separate(buffer: array<char>)
      ensures Valid() && input == buffer && fresh(output) && text == buffer[..] && Unread() == text
      ensures written == "" && level == 0 && status == NotNested && events == []
    {
      input, output, text := buffer, new char[buffer.Length], buffer[..];
      readOffset, writeOffset, current, written := 0, 0, 0, "";
      status, level, events := NotNested, 0, [];
    }

    method Read() returns (c: char)
      requires Valid()
      modifies this`readOffset
      ensures Valid()
      ensures c == Peek(old(Unread())) && Unread() == Drop(old(Unread()))
      ensures readOffset == old(readOffset) + |old(Unread())| - |Unread()|
    {
      if readOffset >= input.Length {
        return NUL;
      }
      c := input[readOffset];
      readOffset := readOffset + 1;
    }

    method NewWriteBuffer()
      requires Valid()
      modifies this`current
      ensures Valid() && current == writeOffset
    {
      current := writeOffset;
    }

    /** The check for an invalid write is the precondition. */
    method Write(c: char)
      requires Valid() && Room(1)
      modifies this`writeOffset, this`written, output
      ensures Valid() && written == old(written) + [c] && writeOffset == old(writeOffset) + 1
    {
      output[writeOffset] := c;
      writeOffset := writeOffset + 1;
      written := written + [c];
    }

    method WriteAll(s: string)
      requires Valid() && Room(|s|)
      modifies this`writeOffset, this`written, output
      ensures Valid() && written == old(written) + s && writeOffset == old(writeOffset) + |s|
    {
      hide Valid;
      for i := 0 to |s|
        invariant Valid() && written == old(written) + s[..i] && writeOffset == old(writeOffset) + i
      {
        Write(s[i]);
        assert s[..i + 1] == s[..i] + [s[i]];
      }
      assert s[..|s|] == s;
    }

    /** The string up to its closing quote is decoded and written, with a NUL behind it. */
    method ReadQuotedString() returns (r: Outcome<string>)
      requires Valid() && Room(1)
      modifies this`readOffset, this`writeOffset, this`written, output
      ensures Valid() && Kept(old(written), written)
      ensures Gives(r, Quoted(old(Unread()), 0))
      ensures r.Good? ==> written == old(written) + r.value + [NUL]
    {
      hide Valid, Unread, Quoted, ResumeString, Advance, Follows, Kept;
      ghost var target := Quoted(Unread(), 0);
      var st := Character(0);
      var done := "";
      StringStarts(Unread());
      while !st.Closed?
        invariant Valid() && StateOk(st) && Room(Spare(st))
        invariant written == old(written) + done
        invariant target == Prefixed(done, ResumeString(st, Unread()))
        decreases |Unread()|, !st.Closed?
      {
        ghost var s := Unread();
        var c := Read();
        KeptBehind(old(written), done);
        if c == NUL {
          EndResumes(st, s);
          return Bad(ExpectedClosingQuote, ErrorOffset());
        }
        StepResumes(st, s);
        AdvanceSpare(st, c);
        FollowsStep(st, s, done);
        var step := Advance(st, c);
        if step.Fail? {
          return Bad(step.reason, ErrorOffset());
        }
        WriteAll(step.written);
        done, st := done + step.written, step.next;
      }
      ClosedResumes(Unread(), done);
      JoinLast(old(written), done, NUL);
      KeptBehind(old(written), done + [NUL]);
      Write(NUL);
      r := Good(done);
    }

    /** The outcome of an unquoted value with the character that ends it read as well. */
    ghost predicate GivesUpTo(o: Outcome<string>, c: char, r: Result<string>)
      reads this
    {
      if r.Ok? then o == Good(r.value) && [c] + Unread() == r.rest && EndsValue(c)
      else o == Bad(r.reason, ErrorOffset()) && Unread() == r.rest
    }

    /** An unquoted value is copied behind its first character; the character that ends it is returned. */
    method CopyUnquotedValue(first: char) returns (r: Outcome<string>, c: char)
      requires Valid() && (first != NUL ==> Room(1))
      modifies this`readOffset, this`writeOffset, this`written, output
      ensures Valid() && Kept(old(written), written)
      ensures GivesUpTo(r, c, Prefixed(FirstText(first), Unquoted(old(Unread()))))
      ensures r.Good? ==> Room(1) && written == old(written) + r.value
    {
      assert Room(|FirstText(first)|);
      hide Valid, Unread, Unquoted, EndsValue, Prefixed, Kept, FirstText, Peek, Drop;
      ghost var target := Prefixed(FirstText(first), Unquoted(Unread()));
      var done := FirstText(first);
      WriteAll(done);
      while true
        invariant Valid() && Room(0)
        invariant written == old(written) + done
        invariant target == Prefixed(done, Unquoted(Unread()))
        decreases |Unread()|
      {
        ghost var s := Unread();
        c := Read();
        if c == NUL {
          UnquotedRunsOut(s, done);
          KeptBehind(old(written), done);
          return Bad(UnterminatedValue, ErrorOffset()), c;
        }
        if EndsValue(c) {
          UnquotedEnds(s, done);
          KeptBehind(old(written), done);
          return Good(done), c;
        }
        UnquotedGoesOn(s, done);
        JoinLast(old(written), done, c);
        Write(c);
        done := done + [c];
      }
    }

    method ReadUnquotedValue(first: char) returns (r: Outcome<string>, c: char)
      requires Valid() && (first != NUL ==> Room(1))
      modifies this`readOffset, this`writeOffset, this`written, output
      ensures Valid() && Kept(old(written), written)
      ensures GivesUpTo(r, c, Prefixed(FirstText(first), Unquoted(old(Unread()))))
      ensures r.Good? ==> written == old(written) + r.value + [NUL]
    {
      hide Valid, Unread, Unquoted, EndsValue, Prefixed, Kept;
      r, c := CopyUnquotedValue(first);
      if r.Good? {
        JoinLast(old(written), r.value, NUL);
        KeptBehind(old(written), r.value + [NUL]);
        Write(NUL);
      }
    }

    /** The C string at the current write position, as a handler sees it. */
    method CurrentString() returns (s: string)
      requires Valid() && NUL in written[current..]
      ensures s == CString(written[current..])
    {
      hide CString;
      s := "";
      var i := current;
      assert "" + CString(written[current..]) == CString(written[current..]);
      while output[i] != NUL
        invariant current <= i < writeOffset && NUL in written[i..]
        invariant CString(written[current..]) == s + CString(written[i..])
        decreases writeOffset - i
      {
        assert output[i] == written[i];
        CStringStep(written, i, s);
        s := s + [output[i]];
        i := i + 1;
      }
      CStringEnd(written, i, s);
    }

    /** A string, decoded at a new write position. */
    method ReadString() returns (r: Outcome<string>)
      requires Valid() && Room(1)
      modifies this`readOffset, this`writeOffset, this`written, this`current, output
      ensures Valid() && Kept(old(written), written)
      ensures Gives(r, StringResult(old(Unread())))
    {
      hide Buffers, Unread, Quoted, CString, Kept;
      NewWriteBuffer();
      ghost var s := Unread();
      ghost var w := written;
      WrittenLength();
      r := ReadQuotedString();
      if r.Good? {
        WrittenLength();
        StringBehind(w, r.value);
        var v := CurrentString();
        r := Good(v);
      }
    }

    lemma WrittenLength()
      requires Valid()
      ensures |written| == writeOffset
    {
    }

    /** An unquoted value; the character that ends it is returned. */
    method ReadScalar(first: char, d: ToDouble) returns (r: Outcome<Tree>, c: char)
      requires Valid() && (first != NUL ==> Room(1))
      modifies this`readOffset, this`writeOffset, this`written, this`current, output
      ensures Valid() && Kept(old(written), written)
      ensures var v := ScalarResult(first, old(Unread()), d);
              if v.Ok? then r == Good(v.value) && EndsValue(c) && [c] + Unread() == v.rest
              else r == Bad(v.reason, ErrorOffset()) && Unread() == v.rest
    {
      hide Buffers, Unread, Unquoted, CString, Kept, Scalar, EndsValue;
      NewWriteBuffer();
      ghost var s := Unread();
      ghost var w := written;
      WrittenLength();
      var o;
      o, c := ReadUnquotedValue(first);
      if o.Bad? {
        return Bad(o.reason, o.offset), c;
      }
      WrittenLength();
      StringBehind(w, o.value);
      ScalarText(first, s);
      var text := CurrentString();
      var v := Scalar(text, d);
      r := if v.Some? then Good(v.value) else Bad(InvalidValue, ErrorOffset());
      assert ([c] + Unread())[1..] == Unread();
    }

    // ----- objects and arrays

    /** Text ahead when the last character read may have to be looked at again. */
    ghost function Ahead(c: char, mustRead: bool): string
      reads this`readOffset
    {
      if mustRead then Unread() else [c] + Unread()
    }

    /** Characters left for nested containers; bounds the recursion. */
    ghost function Left(c: char): nat
      reads this`readOffset
    {
      |Unread()| + if c == NUL then 0 else 1
    }

    /** The handler is given a value as a field or as an element. */
    method Handle(name: Option<string>, h: Handed)
      modifies this`events
      ensures events == old(events) + [Given(name, h)]
    {
      events := events + [Given(name, h)];
    }

    /**
     A value with its first character read.  Objects and arrays are handed to a handler
     that parses them, as ignore does; the nesting level is back where it was afterwards.
     */
    method ReadValue(name: Option<string>, first: char, d: ToDouble) returns (r: Outcome<Tree>, c: char, mustRead: bool)
      requires Valid() && status == NotNested && (first != NUL ==> Room(1))
      modifies this, output
      ensures Valid() && Kept(old(written), written)
      ensures GivesValue(r, c, mustRead, Value(first, old(Unread()), old(level), d))
      ensures r.Good? ==> level == old(level) && status == NotNested
      ensures events == old(events) + ValueEvents(name, first, old(Unread()), old(level), d)
      decreases Left(first), 4
    {
      hide Buffers, Unread, Kept, Value, ValueEvents;
      if first == '{' || first == '[' {
        r := ReadNested(name, first == '[', d);
        c, mustRead := first, true;
      } else {
        r, c, mustRead := ReadLeaf(name, first, d);
      }
    }

    /** The outcome of a value and the text ahead of it. */
    ghost predicate GivesValue(o: Outcome<Tree>, c: char, mustRead: bool, v: Result<Tree>)
      reads this`readOffset
    {
      if v.Ok? then o == Good(v.value) && Ahead(c, mustRead) == v.rest && c != NUL
      else o == Bad(v.reason, ErrorOffset()) && Unread() == v.rest
    }

    /** A string or an unquoted value is handed over when it has been read. */
    method ReadLeaf(name: Option<string>, first: char, d: ToDouble) returns (r: Outcome<Tree>, c: char, mustRead: bool)
      requires Valid() && first != '{' && first != '[' && (first != NUL ==> Room(1))
      modifies this`readOffset, this`writeOffset, this`written, this`current, this`events, output
      ensures Valid() && Kept(old(written), written)
      ensures GivesValue(r, c, mustRead, Value(first, old(Unread()), level, d))
      ensures events == old(events) + ValueEvents(name, first, old(Unread()), level, d)
    {
      hide Buffers, Unread, Kept, Quoted, Unquoted, EndsValue, Scalar, CString, ValueEvents;
      ghost var s := Unread();
      c, mustRead := first, true;
      if first == '"' {
        var t := ReadString();
        r := if t.Good? then Good(Str(t.value)) else Bad(t.reason, t.offset);
      } else {
        r, c := ReadScalar(first, d);
        mustRead := false;
        assert EndsValue(c) ==> c != NUL by { EndsNotNul(c); }
      }
      LeafEvents(name, first, s, level, d);
      if r.Good? {
        Handle(name, Leaf(r.value));
      }
      assert old(events) + [] == old(events);
    }

    /** An object or array is handed over and parsed by the handler. */
    method ReadNested(name: Option<string>, isArray: bool, d: ToDouble) returns (r: Outcome<Tree>)
      requires Valid() && status == NotNested
      modifies this, output
      ensures Valid() && Kept(old(written), written)
      ensures Gives(r, Value(if isArray then '[' else '{', old(Unread()), old(level), d))
      ensures r.Good? ==> level == old(level) && status == NotNested
      ensures events == old(events) + ValueEvents(name, if isArray then '[' else '{', old(Unread()), old(level), d)
      decreases |Unread()| + 1, 3
    {
      hide Buffers, Unread, Kept, Value, ObjectGoal, ArrayGoal, ObjectGoalEvents, ArrayGoalEvents, ObjectEvents, ArrayEvents;
      NestedGoals(Unread(), level, d);
      NestedGoalEvents(Unread(), level, d);
      Handle(name, Opened(isArray));
      level := level + 1;
      if isArray {
        status := InArray;
        r := ParseArray(d);
      } else {
        status := InObject;
        r := ParseObject(d);
      }
    }

    lemma GivesReport(o: Outcome<Tree>, r: Result<Tree>)
      requires Valid() && Gives(o, r)
      ensures |r.rest| <= |text| && o == Report(r, |text|)
    {
      assert |Unread()| == |text| - readOffset;
    }

    lemma EndsNotNul(c: char)
      ensures EndsValue(c) ==> c != NUL
    {
    }

    /** Where the object machine stands: what is ahead gives the goal and completes the events. */
    ghost predicate ObjectReady(p: ObjectProgress, goal: Result<Tree>, trace: seq<Event>, at: nat, d: ToDouble)
      reads this`readOffset, this`status, this`level, this`events
    {
      && status == NotNested && level == at
      && ResumeObject(p.state, p.members, p.name, Ahead(p.c, p.mustRead), at, d) == goal
      && events + ObjectTrace(p.state, p.name, Ahead(p.c, p.mustRead), at, d) == trace
      && (p.state.NameOrClosing? ==> p.members == NoMembers && p.name == "")
      && (p.mustRead || p.state.OpeningBrace? || p.state.ObjectComma?)
    }

    /** One character of an object that is no space. */
    method ObjectStep(p: ObjectProgress, d: ToDouble, ghost s: string) returns (r: Outcome<ObjectProgress>)
      requires Valid() && status == NotNested && !IsSpace(p.c) && p.state != ObjectEnd
      requires Peek(s) == p.c && Drop(s) == Unread()
      requires p.state.NameOrClosing? ==> p.members == NoMembers && p.name == ""
      requires p.c != NUL && !p.state.OpeningBrace? && !p.state.ObjectComma? ==> Room(1)
      modifies this, output
      ensures Valid() && Kept(old(written), written)
      ensures var was := ResumeObject(p.state, p.members, p.name, s, old(level), d);
              var trace := old(events) + ObjectTrace(p.state, p.name, s, old(level), d);
              if r.Bad? then was == Err(r.reason, Unread()) && r.offset == ErrorOffset() && events == trace
              else
                && ObjectReady(r.value, was, trace, old(level), d) && r.value.c != NUL && r.value.state != OpeningBrace
                && |Ahead(r.value.c, r.value.mustRead)| < |s|
      decreases Left(p.c), if p.state.FieldValue? then 5 else 0
    {
      hide Buffers, Unread, Kept, Quoted, ResumeObject, ObjectTrace, ValueEvents, Value, CString;
      KeptAll(written);
      assert events + [] == events;
      match p.state {
        case OpeningBrace =>
          OpeningStep(s, p.members, p.name, level, d);
          OpeningTrace(s, p.name, level, d);
          r := if p.c == '{' then Good(ObjectAt(NameOrClosing, NoMembers, "", p.c, true)) else Bad(ExpectedOpeningBracket, ErrorOffset());
        case NameOrClosing =>
          NameOrClosingStep(s, level, d);
          NameOrClosingTrace(s, p.name, level, d);
          if p.c == '}' {
            ObjectEnds(NoMembers, "", Unread(), level, d);
            ObjectTraceEnds("", Unread(), level, d);
            r := Good(ObjectAt(ObjectEnd, NoMembers, "", p.c, true));
          } else {
            r := NameStepAt(p, d, s);
          }
        case Name =>
          r := NameStepAt(p, d, s);
        case Colon =>
          ColonStep(s, p.members, p.name, level, d);
          ColonTrace(s, p.name, level, d);
          r := if p.c == ':' then Good(ObjectAt(FieldValue, p.members, p.name, p.c, true)) else Bad(ExpectedColon, ErrorOffset());
        case FieldValue =>
          FieldStep(s, p.members, p.name, level, d);
          FieldTrace(s, p.name, level, d);
          NothingIsUnterminated(level, d);
          var v, c, mustRead := ReadValue(Some(p.name), p.c, d);
          r := if v.Good? then Good(ObjectAt(ObjectComma, Concat(p.members, Member(p.name, v.value, NoMembers)), p.name, c, mustRead))
               else Bad(v.reason, v.offset);
        case ObjectComma =>
          CommaStep(s, p.members, p.name, level, d);
          CommaTrace(s, p.name, level, d);
          ObjectEnds(p.members, p.name, Unread(), level, d);
          ObjectTraceEnds(p.name, Unread(), level, d);
          r := if p.c == ',' then Good(ObjectAt(Name, p.members, p.name, p.c, true))
               else if p.c == '}' then Good(ObjectAt(ObjectEnd, p.members, p.name, p.c, true))
               else Bad(ExpectedCommaOrClosingBracket, ErrorOffset());
      }
    }

    /** A field name. */
    method NameStepAt(p: ObjectProgress, d: ToDouble, ghost s: string) returns (r: Outcome<ObjectProgress>)
      requires Valid() && status == NotNested && !IsSpace(p.c)
      requires Peek(s) == p.c && Drop(s) == Unread()
      requires p.c != NUL ==> Room(1)
      modifies this`readOffset, this`writeOffset, this`written, this`current, output
      ensures Valid() && Kept(old(written), written)
      ensures var was := ResumeObject(Name, p.members, p.name, s, level, d);
              var trace := events + ObjectTrace(Name, p.name, s, level, d);
              if r.Bad? then was == Err(r.reason, Unread()) && r.offset == ErrorOffset() && events == trace
              else
                && ObjectReady(r.value, was, trace, level, d) && r.value.c != NUL && r.value.state != OpeningBrace
                && |Ahead(r.value.c, r.value.mustRead)| < |s|
    {
      hide Buffers, Unread, Kept, Quoted, ResumeObject, ObjectTrace, CString;
      KeptAll(written);
      assert events + [] == events;
      NameStep(s, p.members, p.name, level, d);
      NameTrace(s, p.name, level, d);
      if p.c != '"' {
        return Bad(ExpectedOpeningQuote, ErrorOffset());
      }
      var n := ReadString();
      r := if n.Good? then Good(ObjectAt(Colon, p.members, n.value, p.c, true)) else Bad(n.reason, n.offset);
    }

    /** The loop of the object machine. */
    method ObjectLoop(start: ObjectProgress, d: ToDouble) returns (r: Outcome<Members>)
      requires Valid() && status == NotNested && start.state.OpeningBrace? && start.members == NoMembers && start.name == ""
      modifies this, output
      ensures Valid() && Kept(old(written), written)
      ensures var was := ResumeObject(OpeningBrace, NoMembers, "", old(Ahead(start.c, start.mustRead)), old(level), d);
              if r.Good? then was == Ok(Object(r.value), Unread()) && level == old(level) && status == NotNested
              else was == Err(r.reason, Unread()) && r.offset == ErrorOffset()
      ensures events == old(events) + ObjectTrace(OpeningBrace, "", old(Ahead(start.c, start.mustRead)), old(level), d)
      decreases |Unread()| + 1, 1
    {
      hide Buffers, Unread, Kept, ResumeObject, ObjectTrace;
      KeptAll(written);
      var p := start;
      ghost var goal := ResumeObject(OpeningBrace, NoMembers, "", Ahead(p.c, p.mustRead), level, d);
      ghost var trace := events + ObjectTrace(OpeningBrace, "", Ahead(p.c, p.mustRead), level, d);
      while p.state != ObjectEnd
        invariant Valid() && Kept(old(written), written)
        invariant ObjectReady(p, goal, trace, old(level), d)
        invariant |Ahead(p.c, p.mustRead)| <= |old(Unread())| + if p.state.OpeningBrace? then 1 else 0
        invariant p.state.OpeningBrace? && !p.mustRead ==> Unread() == old(Unread())
        decreases |Ahead(p.c, p.mustRead)|
      {
        // no container is left unparsed by the handler
        assert level == old(level);
        ghost var s := Ahead(p.c, p.mustRead);
        if p.mustRead {
          var c := Read();
          p := p.(c := c);
        }
        if IsSpace(p.c) {
          ObjectSkips(p.state, p.members, p.name, s, level, d);
          ObjectTraceSkips(p.state, p.name, s, level, d);
          p := p.(mustRead := true);
        } else {
          ghost var w := written;
          var o := ObjectStep(p, d, s);
          KeptOn(old(written), w, written);
          if o.Bad? {
            return Bad(o.reason, o.offset);
          }
          p := o.value;
        }
      }
      ObjectEnds(p.members, p.name, Unread(), level, d);
      ObjectTraceEnds(p.name, Unread(), level, d);
      assert events + [] == events;
      r := Good(p.members);
    }

    method ParseObject(d: ToDouble) returns (r: Outcome<Tree>)
      requires Valid()
      modifies this, output
      ensures Valid() && Kept(old(written), written)
      ensures Gives(r, ObjectGoal(old(Unread()), old(status), old(level), d))
      ensures events == old(events) + ObjectGoalEvents(old(Unread()), old(status), old(level), d)
      ensures r.Good? ==> status == NotNested && level == if old(level) > 0 then old(level) - 1 else 0
      decreases |Unread()| + 1, 2
    {
      hide Buffers, Unread, Kept, ResumeObject, ObjectTrace;
      if level > NESTING_LIMIT {
        KeptAll(written);
        return Bad(ExceededNestingLimit, ErrorOffset());
      }
      var first := if status == InObject then '{' else if status == InArray then '[' else NUL;
      var p := ObjectAt(OpeningBrace, NoMembers, "", first, status == NotNested);
      status := NotNested;
      assert Ahead(p.c, p.mustRead) == OpeningRead(old(status)) + Unread();
      ghost var trace := ObjectTrace(OpeningBrace, "", Ahead(p.c, p.mustRead), level, d);
      events := events + [Enter];
      var o := ObjectLoop(p, d);
      EventsAround(old(events), trace, Leaving(o.Good?));
      if o.Bad? {
        return Bad(o.reason, o.offset);
      }
      events := events + [Leave];
      if level > 0 {
        level := level - 1;
      }
      r := Good(Object(o.value));
    }

    ghost predicate ArrayReady(p: ArrayProgress, goal: Result<Tree>, trace: seq<Event>, at: nat, d: ToDouble)
      reads this`readOffset, this`status, this`level, this`events
    {
      && status == NotNested && level == at
      && ResumeArray(p.state, p.items, Ahead(p.c, p.mustRead), at, d) == goal
      && events + ArrayTrace(p.state, Ahead(p.c, p.mustRead), at, d) == trace
      && (p.state.ItemOrClosing? ==> p.items == NoItems)
      && (p.mustRead || p.state.OpeningSquare? || p.state.ArrayComma?)
    }

    /** One character of an array that is no space. */
    method ArrayStep(p: ArrayProgress, d: ToDouble, ghost s: string) returns (r: Outcome<ArrayProgress>)
      requires Valid() && status == NotNested && !IsSpace(p.c) && p.state != ArrayEnd
      requires Peek(s) == p.c && Drop(s) == Unread()
      requires p.state.ItemOrClosing? ==> p.items == NoItems
      requires p.c != NUL && !p.state.OpeningSquare? && !p.state.ArrayComma? ==> Room(1)
      modifies this, output
      ensures Valid() && Kept(old(written), written)
      ensures var was := ResumeArray(p.state, p.items, s, old(level), d);
              var trace := old(events) + ArrayTrace(p.state, s, old(level), d);
              if r.Bad? then was == Err(r.reason, Unread()) && r.offset == ErrorOffset() && events == trace
              else
                && ArrayReady(r.value, was, trace, old(level), d) && r.value.c != NUL && r.value.state != OpeningSquare
                && |Ahead(r.value.c, r.value.mustRead)| < |s|
      decreases Left(p.c), if p.state.ItemOrClosing? || p.state.ItemValue? then 6 else 0
    {
      hide Buffers, Unread, Kept, ResumeArray, ArrayTrace, ValueEvents, Value;
      KeptAll(written);
      assert events + [] == events;
      if p.state.OpeningSquare? {
        SquareStep(s, p.items, level, d);
        SquareTrace(s, level, d);
        r := if p.c == '[' then Good(ArrayAt(ItemOrClosing, NoItems, p.c, true)) else Bad(ExpectedOpeningBracket, ErrorOffset());
      } else if p.state.ArrayComma? {
        ItemCommaStep(s, p.items, level, d);
        ItemCommaTrace(s, level, d);
        ArrayEnds(p.items, Unread(), level, d);
        ArrayTraceEnds(Unread(), level, d);
        r := if p.c == ',' then Good(ArrayAt(ItemValue, p.items, p.c, true))
             else if p.c == ']' then Good(ArrayAt(ArrayEnd, p.items, p.c, true))
             else Bad(ExpectedCommaOrClosingBracket, ErrorOffset());
      } else if p.state.ItemOrClosing? && p.c == ']' {
        ItemOrClosingStep(s, level, d);
        ItemOrClosingTrace(s, level, d);
        ArrayEnds(NoItems, Unread(), level, d);
        ArrayTraceEnds(Unread(), level, d);
        r := Good(ArrayAt(ArrayEnd, NoItems, p.c, true));
      } else {
        ItemOrClosingStep(s, level, d);
        ItemOrClosingTrace(s, level, d);
        r := ItemStepAt(p, d, s);
      }
    }

    /** An element. */
    method ItemStepAt(p: ArrayProgress, d: ToDouble, ghost s: string) returns (r: Outcome<ArrayProgress>)
      requires Valid() && status == NotNested && !IsSpace(p.c)
      requires Peek(s) == p.c && Drop(s) == Unread()
      requires p.c != NUL ==> Room(1)
      modifies this, output
      ensures Valid() && Kept(old(written), written)
      ensures var was := ResumeArray(ItemValue, p.items, s, old(level), d);
              var trace := old(events) + ArrayTrace(ItemValue, s, old(level), d);
              if r.Bad? then was == Err(r.reason, Unread()) && r.offset == ErrorOffset() && events == trace
              else
                && ArrayReady(r.value, was, trace, old(level), d) && r.value.c != NUL && r.value.state != OpeningSquare
                && |Ahead(r.value.c, r.value.mustRead)| < |s|
      decreases Left(p.c), 5
    {
      hide Buffers, Unread, Kept, ResumeArray, ArrayTrace, ValueEvents, Value;
      ItemStep(s, p.items, level, d);
      ItemTrace(s, level, d);
      NothingIsUnterminated(level, d);
      var v, c, mustRead := ReadValue(None, p.c, d);
      r := if v.Good? then Good(ArrayAt(ArrayComma, ConcatItems(p.items, Item(v.value, NoItems)), c, mustRead))
           else Bad(v.reason, v.offset);
    }

    /** The loop of the array machine. */
    method ArrayLoop(start: ArrayProgress, d: ToDouble) returns (r: Outcome<Items>)
      requires Valid() && status == NotNested && start.state.OpeningSquare? && start.items == NoItems
      modifies this, output
      ensures Valid() && Kept(old(written), written)
      ensures var was := ResumeArray(OpeningSquare, NoItems, old(Ahead(start.c, start.mustRead)), old(level), d);
              if r.Good? then was == Ok(Array(r.value), Unread()) && level == old(level) && status == NotNested
              else was == Err(r.reason, Unread()) && r.offset == ErrorOffset()
      ensures events == old(events) + ArrayTrace(OpeningSquare, old(Ahead(start.c, start.mustRead)), old(level), d)
      decreases |Unread()| + 1, 1
    {
      hide Buffers, Unread, Kept, ResumeArray, ArrayTrace;
      KeptAll(written);
      var p := start;
      ghost var goal := ResumeArray(OpeningSquare, NoItems, Ahead(p.c, p.mustRead), level, d);
      ghost var trace := events + ArrayTrace(OpeningSquare, Ahead(p.c, p.mustRead), level, d);
      while p.state != ArrayEnd
        invariant Valid() && Kept(old(written), written)
        invariant ArrayReady(p, goal, trace, old(level), d)
        invariant |Ahead(p.c, p.mustRead)| <= |old(Unread())| + if p.state.OpeningSquare? then 1 else 0
        invariant p.state.OpeningSquare? && !p.mustRead ==> Unread() == old(Unread())
        decreases |Ahead(p.c, p.mustRead)|
      {
        // no container is left unparsed by the handler
        assert level == old(level);
        ghost var s := Ahead(p.c, p.mustRead);
        if p.mustRead {
          var c := Read();
          p := p.(c := c);
        }
        if IsSpace(p.c) {
          ArraySkips(p.state, p.items, s, level, d);
          ArrayTraceSkips(p.state, s, level, d);
          p := p.(mustRead := true);
        } else {
          ghost var w := written;
          var o := ArrayStep(p, d, s);
          KeptOn(old(written), w, written);
          if o.Bad? {
            return Bad(o.reason, o.offset);
          }
          p := o.value;
        }
      }
      ArrayEnds(p.items, Unread(), level, d);
      ArrayTraceEnds(Unread(), level, d);
      assert events + [] == events;
      r := Good(p.items);
    }

    method ParseArray(d: ToDouble) returns (r: Outcome<Tree>)
      requires Valid()
      modifies this, output
      ensures Valid() && Kept(old(written), written)
      ensures Gives(r, ArrayGoal(old(Unread()), old(status), old(level), d))
      ensures events == old(events) + ArrayGoalEvents(old(Unread()), old(status), old(level), d)
      ensures r.Good? ==> status == NotNested && level == if old(level) > 0 then old(level) - 1 else 0
      decreases |Unread()| + 1, 2
    {
      hide Buffers, Unread, Kept, ResumeArray, ArrayTrace;
      if level > NESTING_LIMIT {
        KeptAll(written);
        return Bad(ExceededNestingLimit, ErrorOffset());
      }
      var first := if status == InObject then '{' else if status == InArray then '[' else NUL;
      var p := ArrayAt(OpeningSquare, NoItems, first, status == NotNested);
      status := NotNested;
      assert Ahead(p.c, p.mustRead) == OpeningRead(old(status)) + Unread();
      ghost var trace := ArrayTrace(OpeningSquare, Ahead(p.c, p.mustRead), level, d);
      events := events + [Enter];
      var o := ArrayLoop(p, d);
      EventsAround(old(events), trace, Leaving(o.Good?));
      if o.Bad? {
        return Bad(o.reason, o.offset);
      }
      events := events + [Leave];
      if level > 0 {
        level := level - 1;
      }
      r := Good(Array(o.value));
    }

    /** A whole document: outcome and events are those of the functions on the text as it was, in place or not. */
    method ParseDocument(obj: bool, d: ToDouble) returns (r: Outcome<Tree>)
      requires Valid() && status == NotNested && level == 0
      modifies this, output
      ensures Valid() && Kept(old(written), written)
      ensures Gives(r, Document(old(Unread()), obj, d))
      ensures events == old(events) + Events(old(Unread()), obj, d)
      ensures r.Good? ==> status == NotNested && level == 0
    {
      hide Buffers, Unread, Kept, ObjectGoal, ArrayGoal, ObjectGoalEvents, ArrayGoalEvents, Document, Events;
      RootGoals(Unread(), d);
      RootGoalEvents(Unread(), d);
      if obj {
        r := ParseObject(d);
      } else {
        r := ParseArray(d);
      }
    }
  }

  /** What a caller sees of a result: the value, or the reason and the offset of the last character read. */
  function Report(r: Result<Tree>, length: nat): Outcome<Tree>
    requires |r.rest| <= length
  {
    if r.Ok? then Good(r.value) else Bad(r.reason, if |r.rest| < length then length - |r.rest| - 1 else 0)
  }

  method Filled(text: string) returns (buffer: array<char>)
    ensures fresh(buffer) && buffer[..] == text
  {
    buffer := new char[|text|];
    forall i | 0 <= i < |text| { buffer[i] := text[i]; }
  }

  method ParseSeparately(text: string, obj: bool, d: ToDouble) returns (r: Outcome<Tree>, events: seq<Event>)
    ensures r == Report(Document(text, obj, d), |text|) && events == Events(text, obj, d)
  {
    hide Document, Events, Context.Valid, Context.Gives, Context.Unread, Kept;
    var buffer := Filled(text);
    var context := new Context.Separate(buffer);
    r := context.ParseDocument(obj, d);
    context.GivesReport(r, Document(text, obj, d));
    events := context.events;
    assert [] + Events(text, obj, d) == Events(text, obj, d);
  }

  method ParseInPlace(text: string, obj: bool, d: ToDouble) returns (r: Outcome<Tree>, events: seq<Event>)
    ensures r == Report(Document(text, obj, d), |text|) && events == Events(text, obj, d)
  {
    hide Document, Events, Context.Valid, Context.Gives, Context.Unread, Kept;
    var buffer := Filled(text);
    var context := new Context.InPlace(buffer);
    r := context.ParseDocument(obj, d);
    context.GivesReport(r, Document(text, obj, d));
    events := context.events;
    assert [] + Events(text, obj, d) == Events(text, obj, d);
  }
}
