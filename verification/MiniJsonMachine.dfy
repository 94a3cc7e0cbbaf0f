/**
 The state machines of minijson's reader against the functions of MiniJson: for every state,
 what the functions still give for the text ahead, and how one character moves from state
 to state.
 */
module MiniJsonMachine {
  import opened JsonString
  import opened MiniJson
  import opened MiniJsonEvents

  // ----- the string state machine

  datatype StringState =
    | Character(high: nat)
    | Escape(high: nat)
    | Utf16(high: nat, digits: string)
    | Closed

  predicate StateOk(st: StringState) {
    st.Closed? || ((st.high == 0 || IsHigh(st.high)) && (st.Utf16? ==> |st.digits| < 4 && NUL !in st.digits))
  }

  datatype StringStep = Go(written: string, next: StringState) | Fail(reason: Reason)

  /** One character of a quoted string. */
  function Advance(st: StringState, c: char): StringStep
    requires StateOk(st) && !st.Closed?
  {
    match st
    case Character(high) =>
      if c == '\\' then Go("", Escape(high))
      else if high != 0 then Fail(ExpectedLowSurrogate)
      else if c == '"' then Go("", Closed)
      else Go([c], Character(0))
    case Escape(high) =>
      if c == 'u' then Go("", Utf16(high, ""))
      else
        var e := SimpleEscapeChar(c);
        if e.None? then Fail(InvalidEscape) else Go([e.value], Character(high))
    case Utf16(high, digits) =>
      if |digits| < 3 then Go("", Utf16(high, digits + [c]))
      else
        var u := EscapeSequence(digits + [c]);
        if u.None? then Fail(InvalidUtf16)
        else
          var w := CodeUnit(u.value, high);
          if w.None? then Fail(InvalidUtf16) else Go(w.value.0, Character(w.value.1))
  }

  /** What the string function gives from a state on. */
  function ResumeString(st: StringState, s: string): Result<string>
    requires StateOk(st)
  {
    match st
    case Character(high) => Quoted(s, high)
    case Escape(high) => Quoted(['\\'] + s, high)
    case Utf16(high, digits) => Quoted(['\\', 'u'] + (digits + s), high)
    case Closed => Ok("", s)
  }

  /** Characters read since the start of the string that have not been written. */
  function Spare(st: StringState): nat {
    match st
    case Character(high) => if high == 0 then 1 else 7
    case Escape(high) => if high == 0 then 2 else 8
    case Utf16(high, digits) => (if high == 0 then 3 else 9) + |digits|
    case Closed => 2
  }

  lemma AdvanceSpare(st: StringState, c: char)
    requires StateOk(st) && !st.Closed? && c != NUL
    ensures var n := Advance(st, c); n.Go? ==> StateOk(n.next) && |n.written| + Spare(n.next) <= Spare(st) + 1
  {
    hide EscapeSequence;
  }

  lemma CharacterResumes(high: nat, s: string)
    requires (high == 0 || IsHigh(high)) && s != "" && s[0] != NUL
    ensures Follows(Character(high), s)
  {
    if s[0] == '\\' {
      assert s == ['\\'] + s[1..];
      PrefixedNothing(Quoted(s, high));
    } else {
      PrefixedNothing(Ok("", s[1..]));
    }
  }

  lemma EscapeResumes(high: nat, s: string)
    requires (high == 0 || IsHigh(high)) && s != "" && s[0] != NUL
    ensures Follows(Escape(high), s)
  {
    hide EscapeSequence, CodeUnit;
    var q := ['\\'] + s;
    assert q[1..] == s;
    if s[0] == 'u' {
      assert q == ['\\', 'u'] + ("" + s[1..]);
      PrefixedNothing(Quoted(q, high));
    }
  }

  lemma Utf16Resumes(high: nat, digits: string, s: string)
    requires StateOk(Utf16(high, digits)) && s != "" && s[0] != NUL
    ensures Follows(Utf16(high, digits), s)
  {
    hide EscapeSequence, CodeUnit;
    var h := digits + s;
    var more := digits + [s[0]];
    assert h == more + s[1..];
    if |digits| == 3 {
      var q := ['\\', 'u'] + h;
      assert q[1..][1..] == h;
      assert !Short(h, 4) by { Digits4(more); ShortPrefix(more, s[1..], 4); }
      assert EscapeSequence(h) == EscapeSequence(more) by { SequencePrefix(more, s[1..]); }
      assert h[4..] == s[1..];
    } else {
      PrefixedNothing(Quoted(['\\', 'u'] + h, high));
    }
  }

  lemma {:induction false} Digits4(h: string)
    requires NUL !in h
    ensures !Short(h, |h|)
  {
    if h != "" { Digits4(h[1..]); }
  }

  lemma {:induction false} ShortPrefix(h: string, t: string, k: nat)
    requires k == |h|
    ensures Short(h + t, k) == Short(h, k)
  {
    if k > 0 {
      assert (h + t)[1..] == h[1..] + t;
      ShortPrefix(h[1..], t, k - 1);
    }
  }

  lemma SequencePrefix(h: string, t: string)
    requires |h| == 4
    ensures EscapeSequence(h + t) == EscapeSequence(h)
  {
  }

  /** One step of the machine is one step of the function. */
  predicate Follows(st: StringState, s: string)
    requires StateOk(st) && !st.Closed? && s != "" && s[0] != NUL
  {
    var n := Advance(st, s[0]);
    AdvanceSpare(st, s[0]);
    ResumeString(st, s) == if n.Fail? then Err(n.reason, s[1..]) else Prefixed(n.written, ResumeString(n.next, s[1..]))
  }

  lemma StepResumes(st: StringState, s: string)
    requires StateOk(st) && !st.Closed? && s != "" && s[0] != NUL
    ensures Follows(st, s)
  {
    hide Follows;
    match st
    case Character(high) => CharacterResumes(high, s);
    case Escape(high) => EscapeResumes(high, s);
    case Utf16(high, digits) => Utf16Resumes(high, digits, s);
  }

  lemma {:induction false} AfterDigits(digits: string, s: string, k: nat)
    requires NUL !in digits && |digits| < k && Peek(s) == NUL
    ensures Short(digits + s, k) && AfterShort(digits + s, k) == Drop(s)
  {
    if digits == "" {
      assert digits + s == s;
    } else {
      assert (digits + s)[1..] == digits[1..] + s;
      AfterDigits(digits[1..], s, k - 1);
    }
  }

  /** Text that ends inside a string is an error in every state. */
  lemma EndResumes(st: StringState, s: string)
    requires StateOk(st) && !st.Closed? && Peek(s) == NUL
    ensures ResumeString(st, s) == Err(ExpectedClosingQuote, Drop(s))
  {
    hide EscapeSequence, CodeUnit;
    match st
    case Character(high) =>
    case Escape(high) => assert (['\\'] + s)[1..] == s;
    case Utf16(high, digits) =>
      var q := ['\\', 'u'] + (digits + s);
      assert q[1..][1..] == digits + s;
      AfterDigits(digits, s, 4);
  }

  lemma StringStarts(s: string)
    ensures Prefixed("", ResumeString(Character(0), s)) == Quoted(s, 0)
  {
    PrefixedNothing(Quoted(s, 0));
  }

  lemma FollowsStep(st: StringState, s: string, done: string)
    requires StateOk(st) && !st.Closed? && s != "" && s[0] != NUL && Follows(st, s)
    ensures var n := Advance(st, s[0]);
            if n.Fail? then Prefixed(done, ResumeString(st, s)) == Err(n.reason, s[1..])
            else StateOk(n.next) && Prefixed(done, ResumeString(st, s)) == Prefixed(done + n.written, ResumeString(n.next, s[1..]))
  {
    hide ResumeString, Advance;
    AdvanceSpare(st, s[0]);
    var n := Advance(st, s[0]);
    if n.Go? { PrefixedTwice(done, n.written, ResumeString(n.next, s[1..])); }
  }

  lemma ClosedResumes(s: string, done: string)
    ensures Prefixed(done, ResumeString(Closed, s)) == Ok(done, s)
  {
    assert done + "" == done;
  }

  // ----- unquoted values

  function FirstText(first: char): string {
    if first == NUL then "" else [first]
  }

  lemma UnquotedRunsOut(s: string, done: string)
    requires Peek(s) == NUL
    ensures Prefixed(done, Unquoted(s)) == Err(UnterminatedValue, Drop(s))
  {
  }

  lemma UnquotedEnds(s: string, done: string)
    requires Peek(s) != NUL && EndsValue(Peek(s))
    ensures Prefixed(done, Unquoted(s)) == Ok(done, [Peek(s)] + Drop(s))
    ensures |Drop(s)| < |s|
  {
    assert done + "" == done;
    assert [s[0]] + s[1..] == s;
  }

  lemma UnquotedGoesOn(s: string, done: string)
    requires Peek(s) != NUL && !EndsValue(Peek(s))
    ensures Prefixed(done, Unquoted(s)) == Prefixed(done + [Peek(s)], Unquoted(Drop(s)))
    ensures |Drop(s)| < |s|
  {
    PrefixedTwice(done, [s[0]], Unquoted(s[1..]));
  }

  lemma {:induction false} CStringEnds(s: string, t: string)
    ensures CString(s + [NUL] + t) == CString(s)
  {
    if s != "" {
      assert (s + [NUL] + t)[1..] == s[1..] + [NUL] + t;
      CStringEnds(s[1..], t);
    }
  }

  lemma {:induction false} UnquotedKeeps(s: string)
    ensures Unquoted(s).Ok? ==> CString(Unquoted(s).value) == Unquoted(s).value
  {
    if Unquoted(s).Ok? && !EndsValue(s[0]) {
      UnquotedKeeps(s[1..]);
      var v := Unquoted(s[1..]).value;
      assert ([s[0]] + v)[1..] == v;
    }
  }

  lemma CStringStep(w: string, i: nat, done: string)
    requires i < |w| && w[i] != NUL && NUL in w[i..]
    ensures done + CString(w[i..]) == (done + [w[i]]) + CString(w[i + 1..])
    ensures NUL in w[i + 1..]
  {
    assert w[i..] == [w[i]] + w[i + 1..];
    assert w[i..][1..] == w[i + 1..];
  }

  lemma CStringEnd(w: string, i: nat, done: string)
    requires i < |w| && w[i] == NUL
    ensures done + CString(w[i..]) == done
  {
  }

  /** Everything written before is still there. */
  predicate Kept(before: string, after: string) {
    before <= after
  }

  lemma KeptBehind(w: string, more: string)
    ensures Kept(w, w + more)
  {
  }

  lemma KeptAll(w: string)
    ensures Kept(w, w)
  {
  }

  lemma KeptOn(a: string, b: string, c: string)
    requires Kept(a, b) && Kept(b, c)
    ensures Kept(a, c)
  {
  }

  lemma JoinLast(w: string, done: string, c: char)
    ensures (w + done) + [c] == w + (done + [c])
  {
  }

  /** A string handed out stays as it is, whatever is written later. */
  lemma HandedOutStays(before: string, after: string, at: nat)
    requires Kept(before, after) && at <= |before| && NUL in before[at..]
    ensures CString(after[at..]) == CString(before[at..])
  {
    SameCString(before[at..], after[at..]);
  }

  lemma {:induction false} SameCString(a: string, b: string)
    requires a <= b && NUL in a
    ensures CString(a) == CString(b)
  {
    if a[0] != NUL {
      SameCString(a[1..], b[1..]);
    }
  }

  function StringResult(s: string): Result<string> {
    match Quoted(s, 0)
    case Ok(t, rest) => Ok(CString(t), rest)
    case Err(e, rest) => Err(e, rest)
  }

  /** An unquoted value whose first character has been read. */
  function ScalarResult(first: char, s: string, d: ToDouble): Result<Tree> {
    match Unquoted(s)
    case Ok(t, rest) =>
      var v := Scalar(if first == NUL then t else [first] + t, d);
      if v.Some? then Ok(v.value, rest) else Err(InvalidValue, rest[1..])
    case Err(e, rest) => Err(e, rest)
  }

  lemma StringBehind(w: string, s: string)
    ensures (w + s + [NUL])[|w|..] == s + [NUL] && CString(s + [NUL]) == CString(s) && NUL in (w + s + [NUL])[|w|..]
  {
    CStringEnds(s, "");
    assert s + [NUL] + "" == s + [NUL];
    assert (s + [NUL])[|s|] == NUL;
  }

  lemma ScalarText(first: char, s: string)
    ensures var u := Prefixed(FirstText(first), Unquoted(s));
            u.Ok? ==> CString(u.value) == u.value && u.value == if first == NUL then Unquoted(s).value else [first] + Unquoted(s).value
  {
    var u := Unquoted(s);
    if u.Ok? {
      UnquotedKeeps(s);
      assert first == NUL ==> "" + u.value == u.value;
      assert ([first] + u.value)[1..] == u.value;
    }
  }

  // ----- objects

  datatype ObjectState = OpeningBrace | NameOrClosing | Name | Colon | FieldValue | ObjectComma | ObjectEnd

  function Concat(a: Members, b: Members): Members {
    match a
    case NoMembers => b
    case Member(n, v, rest) => Member(n, v, Concat(rest, b))
  }

  /** The members read so far, then the others. */
  function WithMembers(done: Members, r: Result<Members>): Result<Tree> {
    match r
    case Ok(ms, rest) => Ok(Object(Concat(done, ms)), rest)
    case Err(e, rest) => Err(e, rest)
  }

  function Before(n: string, v: Tree, r: Result<Members>): Result<Members> {
    match r
    case Ok(ms, rest) => Ok(Member(n, v, ms), rest)
    case Err(e, rest) => Err(e, rest)
  }

  function ColonFrom(n: string, s: string, level: nat, d: ToDouble): Result<Members> {
    var t := SkipSpaces(s);
    if Peek(t) != ':' then Err(ExpectedColon, Drop(t)) else FieldFrom(n, Drop(t), level, d)
  }

  function FieldFrom(n: string, s: string, level: nat, d: ToDouble): Result<Members> {
    var t := SkipSpaces(s);
    match Value(Peek(t), Drop(t), level, d)
    case Err(e, rest) => Err(e, rest)
    case Ok(v, rest) => Before(n, v, CommaFrom(rest, level, d))
  }

  function CommaFrom(s: string, level: nat, d: ToDouble): Result<Members> {
    var t := SkipSpaces(s);
    if Peek(t) == '}' then Ok(NoMembers, Drop(t))
    else if Peek(t) != ',' then Err(ExpectedCommaOrClosingBracket, Drop(t))
    else MembersFrom(SkipSpaces(Drop(t)), level, d)
  }

  /** What the object functions give from a state on; done are the members handled, n the last field name. */
  function ResumeObject(st: ObjectState, done: Members, n: string, s: string, level: nat, d: ToDouble): Result<Tree> {
    match st
    case OpeningBrace =>
      var t := SkipSpaces(s);
      if Peek(t) != '{' then Err(ExpectedOpeningBracket, Drop(t)) else ObjectBody(Drop(t), level, d)
    case NameOrClosing => ObjectBody(s, level, d)
    case Name => WithMembers(done, MembersFrom(SkipSpaces(s), level, d))
    case Colon => WithMembers(done, ColonFrom(n, s, level, d))
    case FieldValue => WithMembers(done, FieldFrom(n, s, level, d))
    case ObjectComma => WithMembers(done, CommaFrom(s, level, d))
    case ObjectEnd => Ok(Object(done), s)
  }

  lemma ObjectSkips(st: ObjectState, done: Members, n: string, s: string, level: nat, d: ToDouble)
    requires s != "" && IsSpace(s[0]) && st != ObjectEnd
    ensures ResumeObject(st, done, n, s, level, d) == ResumeObject(st, done, n, s[1..], level, d)
  {
    hide MembersFrom, Value;
  }

  lemma {:induction false} ConcatNothing(a: Members)
    ensures Concat(a, NoMembers) == a
  {
    if a.Member? { ConcatNothing(a.rest); }
  }

  lemma {:induction false} ConcatOne(a: Members, n: string, v: Tree, b: Members)
    ensures Concat(Concat(a, Member(n, v, NoMembers)), b) == Concat(a, Member(n, v, b))
  {
    if a.Member? { ConcatOne(a.rest, n, v, b); }
  }

  lemma OpeningStep(s: string, done: Members, n: string, level: nat, d: ToDouble)
    requires !IsSpace(Peek(s))
    ensures var was := ResumeObject(OpeningBrace, done, n, s, level, d);
            was == if Peek(s) != '{' then Err(ExpectedOpeningBracket, Drop(s)) else ResumeObject(NameOrClosing, NoMembers, "", Drop(s), level, d)
  {
    hide ObjectBody;
    assert SkipSpaces(s) == s;
  }

  lemma ColonStep(s: string, done: Members, n: string, level: nat, d: ToDouble)
    requires !IsSpace(Peek(s))
    ensures var was := ResumeObject(Colon, done, n, s, level, d);
            was == if Peek(s) != ':' then Err(ExpectedColon, Drop(s)) else ResumeObject(FieldValue, done, n, Drop(s), level, d)
  {
    hide FieldFrom;
    assert SkipSpaces(s) == s;
  }

  lemma ObjectEnds(done: Members, n: string, s: string, level: nat, d: ToDouble)
    ensures ResumeObject(ObjectEnd, done, n, s, level, d) == Ok(Object(done), s)
  {
  }

  lemma NameStep(s: string, done: Members, last: string, level: nat, d: ToDouble)
    requires !IsSpace(Peek(s))
    ensures var was := ResumeObject(Name, done, last, s, level, d);
            if Peek(s) != '"' then was == Err(ExpectedOpeningQuote, Drop(s))
            else var q := StringResult(Drop(s));
                 was == if q.Err? then Err(q.reason, q.rest) else ResumeObject(Colon, done, q.value, q.rest, level, d)
  {
    hide Value, Quoted, CString;
    assert SkipSpaces(s) == s;
  }

  lemma NameOrClosingStep(s: string, level: nat, d: ToDouble)
    requires !IsSpace(Peek(s))
    ensures var was := ResumeObject(NameOrClosing, NoMembers, "", s, level, d);
            was == if Peek(s) == '}' then Ok(Object(NoMembers), Drop(s)) else ResumeObject(Name, NoMembers, "", s, level, d)
  {
    hide MembersFrom;
    assert SkipSpaces(s) == s;
  }

  lemma FieldStep(s: string, done: Members, n: string, level: nat, d: ToDouble)
    requires !IsSpace(Peek(s))
    ensures var was := ResumeObject(FieldValue, done, n, s, level, d);
            var v := Value(Peek(s), Drop(s), level, d);
            was == if v.Err? then Err(v.reason, v.rest)
                   else ResumeObject(ObjectComma, Concat(done, Member(n, v.value, NoMembers)), n, v.rest, level, d)
  {
    hide Value, CommaFrom;
    assert SkipSpaces(s) == s;
    var v := Value(Peek(s), Drop(s), level, d);
    if v.Ok? {
      var c := CommaFrom(v.rest, level, d);
      if c.Ok? { ConcatOne(done, n, v.value, c.value); }
    }
  }

  lemma CommaStep(s: string, done: Members, n: string, level: nat, d: ToDouble)
    requires !IsSpace(Peek(s))
    ensures var was := ResumeObject(ObjectComma, done, n, s, level, d);
            was == if Peek(s) == '}' then Ok(Object(done), Drop(s))
                   else if Peek(s) == ',' then ResumeObject(Name, done, n, Drop(s), level, d)
                   else Err(ExpectedCommaOrClosingBracket, Drop(s))
  {
    hide MembersFrom;
    assert SkipSpaces(s) == s;
    ConcatNothing(done);
  }

  // ----- events of an object

  function ColonEvents(n: string, s: string, level: nat, d: ToDouble): seq<Event> {
    var t := SkipSpaces(s);
    if Peek(t) != ':' then [] else FieldEvents(n, Drop(t), level, d)
  }

  /** What the handler is still given from a state on. */
  function ObjectTrace(st: ObjectState, n: string, s: string, level: nat, d: ToDouble): seq<Event> {
    match st
    case OpeningBrace =>
      var t := SkipSpaces(s);
      if Peek(t) != '{' then [] else MembersOrEnd(Drop(t), level, d)
    case NameOrClosing => MembersOrEnd(s, level, d)
    case Name => MembersEvents(SkipSpaces(s), level, d)
    case Colon => ColonEvents(n, s, level, d)
    case FieldValue => FieldEvents(n, s, level, d)
    case ObjectComma => CommaEvents(s, level, d)
    case ObjectEnd => []
  }

  lemma ObjectTraceSkips(st: ObjectState, n: string, s: string, level: nat, d: ToDouble)
    requires s != "" && IsSpace(s[0]) && st != ObjectEnd
    ensures ObjectTrace(st, n, s, level, d) == ObjectTrace(st, n, s[1..], level, d)
  {
    hide MembersEvents, Value, Handing, InsideEvents;
  }

  lemma OpeningTrace(s: string, n: string, level: nat, d: ToDouble)
    requires !IsSpace(Peek(s))
    ensures ObjectTrace(OpeningBrace, n, s, level, d) == if Peek(s) == '{' then ObjectTrace(NameOrClosing, "", Drop(s), level, d) else []
  {
    hide MembersOrEnd;
    assert SkipSpaces(s) == s;
  }

  lemma NameOrClosingTrace(s: string, n: string, level: nat, d: ToDouble)
    requires !IsSpace(Peek(s))
    ensures ObjectTrace(NameOrClosing, n, s, level, d) == if Peek(s) == '}' then [] else ObjectTrace(Name, n, s, level, d)
  {
    hide MembersEvents;
    assert SkipSpaces(s) == s;
  }

  lemma NameTrace(s: string, n: string, level: nat, d: ToDouble)
    requires !IsSpace(Peek(s))
    ensures var was := ObjectTrace(Name, n, s, level, d);
            if Peek(s) != '"' then was == []
            else var q := StringResult(Drop(s));
                 was == if q.Err? then [] else ObjectTrace(Colon, q.value, q.rest, level, d)
  {
    hide FieldEvents, Quoted, CString;
    assert SkipSpaces(s) == s;
  }

  lemma ColonTrace(s: string, n: string, level: nat, d: ToDouble)
    requires !IsSpace(Peek(s))
    ensures ObjectTrace(Colon, n, s, level, d) == if Peek(s) == ':' then ObjectTrace(FieldValue, n, Drop(s), level, d) else []
  {
    hide FieldEvents;
    assert SkipSpaces(s) == s;
  }

  /** What a value hands over and what happens inside it, as a field or as an element. */
  function ValueEvents(name: Option<string>, c: char, s: string, level: nat, d: ToDouble): seq<Event> {
    var h := Handing(c, s, level, d);
    if h == [] then [] else [Given(name, h[0])] + InsideEvents(c, s, level, d)
  }

  function Given(name: Option<string>, h: Handed): Event {
    match name
    case Some(n) => Field(n, h)
    case None => Element(h)
  }

  lemma FieldTrace(s: string, n: string, level: nat, d: ToDouble)
    requires !IsSpace(Peek(s))
    ensures var x := Value(Peek(s), Drop(s), level, d);
            ObjectTrace(FieldValue, n, s, level, d) ==
            ValueEvents(Some(n), Peek(s), Drop(s), level, d) + if x.Err? then [] else ObjectTrace(ObjectComma, n, x.rest, level, d)
  {
    hide InsideEvents, Value, CommaEvents;
    assert SkipSpaces(s) == s;
    NothingIsUnterminated(level, d);
    Unhanded(Peek(s), Drop(s), level, d);
  }

  /** Only a value that was not read is not handed over. */
  lemma Unhanded(c: char, s: string, level: nat, d: ToDouble)
    ensures Handing(c, s, level, d) == [] ==> Value(c, s, level, d).Err?
  {
    hide Value;
  }

  lemma CommaTrace(s: string, n: string, level: nat, d: ToDouble)
    requires !IsSpace(Peek(s))
    ensures ObjectTrace(ObjectComma, n, s, level, d) == if Peek(s) == ',' then ObjectTrace(Name, n, Drop(s), level, d) else []
  {
    hide MembersEvents;
    assert SkipSpaces(s) == s;
  }

  lemma ObjectTraceEnds(n: string, s: string, level: nat, d: ToDouble)
    ensures ObjectTrace(ObjectEnd, n, s, level, d) == []
  {
  }

  // ----- arrays

  datatype ArrayState = OpeningSquare | ItemOrClosing | ItemValue | ArrayComma | ArrayEnd

  function ConcatItems(a: Items, b: Items): Items {
    match a
    case NoItems => b
    case Item(v, rest) => Item(v, ConcatItems(rest, b))
  }

  function WithItems(done: Items, r: Result<Items>): Result<Tree> {
    match r
    case Ok(items, rest) => Ok(Array(ConcatItems(done, items)), rest)
    case Err(e, rest) => Err(e, rest)
  }

  function ItemCommaFrom(s: string, level: nat, d: ToDouble): Result<Items> {
    var t := SkipSpaces(s);
    if Peek(t) == ']' then Ok(NoItems, Drop(t))
    else if Peek(t) != ',' then Err(ExpectedCommaOrClosingBracket, Drop(t))
    else ItemsFrom(SkipSpaces(Drop(t)), level, d)
  }

  function ResumeArray(st: ArrayState, done: Items, s: string, level: nat, d: ToDouble): Result<Tree> {
    match st
    case OpeningSquare =>
      var t := SkipSpaces(s);
      if Peek(t) != '[' then Err(ExpectedOpeningBracket, Drop(t)) else ArrayBody(Drop(t), level, d)
    case ItemOrClosing => ArrayBody(s, level, d)
    case ItemValue => WithItems(done, ItemsFrom(SkipSpaces(s), level, d))
    case ArrayComma => WithItems(done, ItemCommaFrom(s, level, d))
    case ArrayEnd => Ok(Array(done), s)
  }

  lemma ArraySkips(st: ArrayState, done: Items, s: string, level: nat, d: ToDouble)
    requires s != "" && IsSpace(s[0]) && st != ArrayEnd
    ensures ResumeArray(st, done, s, level, d) == ResumeArray(st, done, s[1..], level, d)
  {
    hide ItemsFrom, Value;
  }

  lemma {:induction false} ConcatNoItems(a: Items)
    ensures ConcatItems(a, NoItems) == a
  {
    if a.Item? { ConcatNoItems(a.rest); }
  }

  lemma {:induction false} ConcatOneItem(a: Items, v: Tree, b: Items)
    ensures ConcatItems(ConcatItems(a, Item(v, NoItems)), b) == ConcatItems(a, Item(v, b))
  {
    if a.Item? { ConcatOneItem(a.rest, v, b); }
  }

  lemma SquareStep(s: string, done: Items, level: nat, d: ToDouble)
    requires !IsSpace(Peek(s))
    ensures var was := ResumeArray(OpeningSquare, done, s, level, d);
            was == if Peek(s) != '[' then Err(ExpectedOpeningBracket, Drop(s)) else ResumeArray(ItemOrClosing, NoItems, Drop(s), level, d)
  {
    hide ArrayBody;
    assert SkipSpaces(s) == s;
  }

  lemma ArrayEnds(done: Items, s: string, level: nat, d: ToDouble)
    ensures ResumeArray(ArrayEnd, done, s, level, d) == Ok(Array(done), s)
  {
  }

  lemma ItemOrClosingStep(s: string, level: nat, d: ToDouble)
    requires !IsSpace(Peek(s))
    ensures var was := ResumeArray(ItemOrClosing, NoItems, s, level, d);
            was == if Peek(s) == ']' then Ok(Array(NoItems), Drop(s)) else ResumeArray(ItemValue, NoItems, s, level, d)
  {
    hide ItemsFrom;
    assert SkipSpaces(s) == s;
  }

  lemma NothingIsUnterminated(level: nat, d: ToDouble)
    ensures Value(NUL, "", level, d) == Err(UnterminatedValue, "")
  {
  }

  lemma ItemStep(s: string, done: Items, level: nat, d: ToDouble)
    requires !IsSpace(Peek(s))
    ensures var was := ResumeArray(ItemValue, done, s, level, d);
            var v := Value(Peek(s), Drop(s), level, d);
            was == if v.Err? then Err(v.reason, v.rest)
                   else ResumeArray(ArrayComma, ConcatItems(done, Item(v.value, NoItems)), v.rest, level, d)
  {
    hide Value;
    assert SkipSpaces(s) == s;
    NothingIsUnterminated(level, d);
    var v := Value(Peek(s), Drop(s), level, d);
    if v.Ok? {
      var c := ItemCommaFrom(v.rest, level, d);
      if c.Ok? { ConcatOneItem(done, v.value, c.value); }
    }
  }

  lemma ItemCommaStep(s: string, done: Items, level: nat, d: ToDouble)
    requires !IsSpace(Peek(s))
    ensures var was := ResumeArray(ArrayComma, done, s, level, d);
            was == if Peek(s) == ']' then Ok(Array(done), Drop(s))
                   else if Peek(s) == ',' then ResumeArray(ItemValue, done, Drop(s), level, d)
                   else Err(ExpectedCommaOrClosingBracket, Drop(s))
  {
    hide ItemsFrom;
    assert SkipSpaces(s) == s;
    ConcatNoItems(done);
  }

  // ----- events of an array

  function ArrayTrace(st: ArrayState, s: string, level: nat, d: ToDouble): seq<Event> {
    match st
    case OpeningSquare =>
      var t := SkipSpaces(s);
      if Peek(t) != '[' then [] else ItemsOrEnd(Drop(t), level, d)
    case ItemOrClosing => ItemsOrEnd(s, level, d)
    case ItemValue => ItemsEvents(SkipSpaces(s), level, d)
    case ArrayComma => ItemCommaEvents(s, level, d)
    case ArrayEnd => []
  }

  lemma ArrayTraceSkips(st: ArrayState, s: string, level: nat, d: ToDouble)
    requires s != "" && IsSpace(s[0]) && st != ArrayEnd
    ensures ArrayTrace(st, s, level, d) == ArrayTrace(st, s[1..], level, d)
  {
    hide ItemsEvents;
  }

  lemma SquareTrace(s: string, level: nat, d: ToDouble)
    requires !IsSpace(Peek(s))
    ensures ArrayTrace(OpeningSquare, s, level, d) == if Peek(s) == '[' then ArrayTrace(ItemOrClosing, Drop(s), level, d) else []
  {
    hide ItemsOrEnd;
    assert SkipSpaces(s) == s;
  }

  lemma ItemOrClosingTrace(s: string, level: nat, d: ToDouble)
    requires !IsSpace(Peek(s))
    ensures ArrayTrace(ItemOrClosing, s, level, d) == if Peek(s) == ']' then [] else ArrayTrace(ItemValue, s, level, d)
  {
    hide ItemsEvents;
    assert SkipSpaces(s) == s;
  }

  lemma ItemTrace(s: string, level: nat, d: ToDouble)
    requires !IsSpace(Peek(s))
    ensures var x := Value(Peek(s), Drop(s), level, d);
            ArrayTrace(ItemValue, s, level, d) ==
            ValueEvents(None, Peek(s), Drop(s), level, d) + if x.Err? then [] else ArrayTrace(ArrayComma, x.rest, level, d)
  {
    hide InsideEvents, Value, ItemCommaEvents;
    assert SkipSpaces(s) == s;
    NothingIsUnterminated(level, d);
    Unhanded(Peek(s), Drop(s), level, d);
  }

  lemma ItemCommaTrace(s: string, level: nat, d: ToDouble)
    requires !IsSpace(Peek(s))
    ensures ArrayTrace(ArrayComma, s, level, d) == if Peek(s) == ',' then ArrayTrace(ItemValue, Drop(s), level, d) else []
  {
    hide ItemsEvents;
    assert SkipSpaces(s) == s;
  }

  lemma ArrayTraceEnds(s: string, level: nat, d: ToDouble)
    ensures ArrayTrace(ArrayEnd, s, level, d) == []
  {
  }

  // ----- where a container starts

  datatype Nested = NotNested | InObject | InArray

  /** The opening bracket of a nested container has been read already. */
  function OpeningRead(status: Nested): string {
    match status
    case NotNested => ""
    case InObject => "{"
    case InArray => "["
  }

  function ObjectGoal(s: string, status: Nested, level: nat, d: ToDouble): Result<Tree> {
    if level > NESTING_LIMIT then Err(ExceededNestingLimit, s)
    else ResumeObject(OpeningBrace, NoMembers, "", OpeningRead(status) + s, level, d)
  }

  function ArrayGoal(s: string, status: Nested, level: nat, d: ToDouble): Result<Tree> {
    if level > NESTING_LIMIT then Err(ExceededNestingLimit, s)
    else ResumeArray(OpeningSquare, NoItems, OpeningRead(status) + s, level, d)
  }

  lemma NestedGoals(s: string, level: nat, d: ToDouble)
    ensures ObjectGoal(s, InObject, level + 1, d) == Value('{', s, level, d)
    ensures ArrayGoal(s, InArray, level + 1, d) == Value('[', s, level, d)
  {
    hide ObjectBody, ArrayBody;
    assert ("{" + s)[1..] == s && ("[" + s)[1..] == s;
  }

  lemma RootGoals(s: string, d: ToDouble)
    ensures ObjectGoal(s, NotNested, 0, d) == Document(s, true, d)
    ensures ArrayGoal(s, NotNested, 0, d) == Document(s, false, d)
  {
    hide ObjectBody, ArrayBody;
    assert "" + s == s;
  }

  /** The events of a whole container, from the check of the level on. */
  function ObjectGoalEvents(s: string, status: Nested, level: nat, d: ToDouble): seq<Event> {
    if level > NESTING_LIMIT then []
    else [Enter] + (ObjectTrace(OpeningBrace, "", OpeningRead(status) + s, level, d) + Leaving(ObjectGoal(s, status, level, d).Ok?))
  }

  function ArrayGoalEvents(s: string, status: Nested, level: nat, d: ToDouble): seq<Event> {
    if level > NESTING_LIMIT then []
    else [Enter] + (ArrayTrace(OpeningSquare, OpeningRead(status) + s, level, d) + Leaving(ArrayGoal(s, status, level, d).Ok?))
  }

  lemma NestedGoalEvents(s: string, level: nat, d: ToDouble)
    ensures ObjectGoalEvents(s, InObject, level + 1, d) == ObjectEvents(s, level + 1, d)
    ensures ArrayGoalEvents(s, InArray, level + 1, d) == ArrayEvents(s, level + 1, d)
  {
    hide ObjectBody, ArrayBody, MembersOrEnd, ItemsOrEnd;
    assert ("{" + s)[1..] == s && ("[" + s)[1..] == s;
  }

  lemma RootGoalEvents(s: string, d: ToDouble)
    ensures ObjectGoalEvents(s, NotNested, 0, d) == Events(s, true, d)
    ensures ArrayGoalEvents(s, NotNested, 0, d) == Events(s, false, d)
  {
    hide ObjectBody, ArrayBody, MembersOrEnd, ItemsOrEnd;
    assert "" + s == s;
    assert [Enter] + ([] + []) == [Enter];
  }

  lemma EventsAround(before: seq<Event>, inside: seq<Event>, leaving: seq<Event>)
    ensures ((before + [Enter]) + inside) + leaving == before + ([Enter] + (inside + leaving))
    ensures leaving == [] ==> (before + [Enter]) + inside == before + ([Enter] + (inside + leaving))
  {
  }

  /** A leaf is handed over exactly when it has been read. */
  lemma LeafEvents(name: Option<string>, c: char, s: string, level: nat, d: ToDouble)
    requires c != '{' && c != '['
    ensures var v := Value(c, s, level, d);
            ValueEvents(name, c, s, level, d) == if v.Ok? then [Given(name, Leaf(v.value))] else []
  {
    hide Value;
  }
}
