/**
 jsoncpp arrays as index maps.  While an array has no holes, appending, indexing up to the
 size, shrinking and removing are the same operations on a plain sequence, even though
 shrinking and removing leave holes on the way.
 */
module JsonArray {
  import opened JsonValue

  // ----- maps without holes

  /** The keys are the consecutive indices from k on. */
  predicate HoleFree(m: Map, k: nat) {
    m.Entry? ==> m.key == Index(k) && HoleFree(m.rest, k + 1)
  }

  function Elements(m: Map): seq<Value> {
    match m
    case Empty => []
    case Entry(_, v, rest) => [v] + Elements(rest)
  }

  lemma {:induction false} SizeIs(m: Map, k: nat)
    requires HoleFree(m, k)
    ensures ArraySize(m) == if m.Empty? then 0 else k + |Elements(m)|
  {
    if m.Entry? && m.rest.Entry? { SizeIs(m.rest, k + 1); }
  }

  predicate Has(m: Map, key: Key) {
    m.Entry? && (m.key == key || Has(m.rest, key))
  }

  /** Indexing inserts a null when the index is missing. */
  function Touch(m: Map, i: nat): Map {
    if Has(m, Index(i)) then m else Put(m, Index(i), Null)
  }

  function Erase(m: Map, key: Key): Map {
    match m
    case Empty => Empty
    case Entry(k, v, rest) => if k == key then rest else Entry(k, v, Erase(rest, key))
  }

  /** Indices i to n - 1 are erased one after the other. */
  function EraseRange(m: Map, i: nat, n: nat): Map
    decreases n - i
  {
    if i >= n then m else EraseRange(Erase(m, Index(i)), i + 1, n)
  }

  function Resize(m: Map, n: nat): Map {
    if n == 0 then Empty else if n > ArraySize(m) then Touch(m, n - 1) else EraseRange(m, n, ArraySize(m))
  }

  /** Elements behind i are copied down one place each. */
  function Shift(m: Map, i: nat, n: nat): Map
    decreases n - i
  {
    if i + 1 >= n then m else Shift(Put(m, Index(i), Find(m, Index(i + 1))), i + 1, n)
  }

  function Remove(m: Map, i: nat): Map {
    var n := ArraySize(m);
    if Has(m, Index(i)) && n > 0 then Erase(Shift(m, i, n), Index(n - 1)) else m
  }

  // ----- single entries

  lemma {:induction false} HasIndex(m: Map, k: nat, i: nat)
    requires HoleFree(m, k)
    ensures Has(m, Index(i)) <==> k <= i < k + |Elements(m)|
    ensures Has(m, Index(i)) ==> Find(m, Index(i)) == Elements(m)[i - k]
  {
    if m.Entry? { HasIndex(m.rest, k + 1, i); }
  }

  lemma {:induction false} PutIndex(m: Map, k: nat, i: nat, v: Value)
    requires HoleFree(m, k) && k <= i <= k + |Elements(m)|
    ensures HoleFree(Put(m, Index(i), v), k)
    ensures Elements(Put(m, Index(i), v)) == if i < k + |Elements(m)| then Elements(m)[i - k := v] else Elements(m) + [v]
  {
    if m.Entry? && k < i {
      PutIndex(m.rest, k + 1, i, v);
    }
  }

  // ----- shrinking

  function Take(m: Map, n: nat): Map {
    if m.Empty? || n == 0 then Empty else Entry(m.key, m.value, Take(m.rest, n - 1))
  }

  lemma {:induction false} TakeElements(m: Map, k: nat, n: nat)
    requires HoleFree(m, k) && n <= |Elements(m)|
    ensures HoleFree(Take(m, n), k) && Elements(Take(m, n)) == Elements(m)[..n]
  {
    if m.Entry? && n > 0 { TakeElements(m.rest, k + 1, n - 1); }
  }

  lemma {:induction false} EraseKeepsFirst(key: Key, v: Value, rest: Map, i: nat, n: nat)
    requires key.Index? ==> key.i < i
    ensures EraseRange(Entry(key, v, rest), i, n) == Entry(key, v, EraseRange(rest, i, n))
    decreases n - i
  {
    if i < n { EraseKeepsFirst(key, v, Erase(rest, Index(i)), i + 1, n); }
  }

  lemma {:induction false} EraseNothing(i: nat, n: nat)
    ensures EraseRange(Empty, i, n) == Empty
    decreases n - i
  {
    if i < n { EraseNothing(i + 1, n); }
  }

  /** Erasing upwards from i leaves holes in between but ends with the elements below i. */
  lemma {:induction false} EraseTail(m: Map, k: nat, i: nat)
    requires HoleFree(m, k) && k <= i <= k + |Elements(m)|
    ensures EraseRange(m, i, k + |Elements(m)|) == Take(m, i - k)
    decreases m
  {
    var n := k + |Elements(m)|;
    if m.Empty? {
      EraseNothing(i, n);
    } else if k < i {
      EraseKeepsFirst(m.key, m.value, m.rest, i, n);
      EraseTail(m.rest, k + 1, i);
    } else {
      EraseTail(m.rest, k + 1, k + 1);
    }
  }

  /** Shrinking is taking a prefix, and the size is then the one asked for. */
  lemma ShrinkTakes(m: Map, n: nat)
    requires HoleFree(m, 0) && n <= |Elements(m)|
    ensures HoleFree(Resize(m, n), 0) && Elements(Resize(m, n)) == Elements(m)[..n] && ArraySize(Resize(m, n)) == n
  {
    SizeIs(m, 0);
    if n > 0 {
      EraseTail(m, 0, n);
      TakeElements(m, 0, n);
      SizeIs(Take(m, n), 0);
    }
  }

  // ----- removing

  /** The last element twice, the one at i gone. */
  lemma {:induction false} ShiftElements(m: Map, i: nat)
    requires HoleFree(m, 0) && i < |Elements(m)|
    ensures var e, r := Elements(m), Shift(m, i, |Elements(m)|);
            HoleFree(r, 0) && Elements(r) == e[..i] + e[i + 1..] + [e[|e| - 1]]
    decreases |Elements(m)| - i
  {
    hide Elements, HoleFree, Put, Find;
    var e := Elements(m);
    if i + 1 < |e| {
      HasIndex(m, 0, i + 1);
      PutIndex(m, 0, i, e[i + 1]);
      var p := Put(m, Index(i), e[i + 1]);
      ShiftElements(p, i + 1);
      ShiftOnce(e, i);
    } else {
      assert e[..i] + e[i + 1..] + [e[|e| - 1]] == e;
    }
  }

  lemma ShiftOnce(e: seq<Value>, i: nat)
    requires i + 1 < |e|
    ensures var f := e[i := e[i + 1]];
            f[..i + 1] + f[i + 2..] + [f[|e| - 1]] == e[..i] + e[i + 1..] + [e[|e| - 1]]
  {
  }

  lemma {:induction false} EraseLast(m: Map, k: nat)
    requires HoleFree(m, k) && m.Entry?
    ensures var n := |Elements(m)|;
            var r := Erase(m, Index(k + n - 1));
            HoleFree(r, k) && Elements(r) == Elements(m)[..n - 1]
  {
    if m.rest.Entry? {
      EraseLast(m.rest, k + 1);
      assert Elements(m)[..|Elements(m)| - 1] == [m.value] + Elements(m.rest)[..|Elements(m.rest)| - 1];
    }
  }

  lemma RemoveTakesOut(m: Map, i: nat)
    requires HoleFree(m, 0)
    ensures HoleFree(Remove(m, i), 0)
    ensures Elements(Remove(m, i)) == if i < |Elements(m)| then Elements(m)[..i] + Elements(m)[i + 1..] else Elements(m)
  {
    hide Elements, HoleFree, Put, Find, Shift, Erase;
    SizeIs(m, 0);
    HasIndex(m, 0, i);
    if i < |Elements(m)| {
      EmptyElements(m);
      var e := Elements(m);
      ShiftElements(m, i);
      var s := Shift(m, i, |e|);
      EmptyElements(s);
      EraseLast(s, 0);
      assert |Elements(s)| == |e|;
      assert Elements(s)[..|e| - 1] == e[..i] + e[i + 1..];
    }
  }

  lemma EmptyElements(m: Map)
    ensures m.Empty? <==> Elements(m) == []
  {
  }

  // ----- every run of operations

  datatype Op = Append(v: Value) | Use(at: nat) | Assign(at: nat, v: Value) | Shrink(n: nat) | RemoveAt(at: nat)

  /** Indices up to the size, sizes up to the size. */
  predicate Allowed(op: Op, size: nat) {
    match op
    case Append(_) => true
    case Use(i) => i <= size
    case Assign(i, _) => i <= size
    case Shrink(n) => n <= size
    case RemoveAt(_) => true
  }

  function Apply(m: Map, op: Op): Map {
    match op
    case Append(v) => Put(m, Index(ArraySize(m)), v)
    case Use(i) => Touch(m, i)
    case Assign(i, v) => Put(m, Index(i), v)
    case Shrink(n) => Resize(m, n)
    case RemoveAt(i) => Remove(m, i)
  }

  /** The same on a plain sequence. */
  function ApplySeq(s: seq<Value>, op: Op): seq<Value>
    requires Allowed(op, |s|)
  {
    match op
    case Append(v) => s + [v]
    case Use(i) => if i < |s| then s else s + [Null]
    case Assign(i, v) => if i < |s| then s[i := v] else s + [v]
    case Shrink(n) => s[..n]
    case RemoveAt(i) => if i < |s| then s[..i] + s[i + 1..] else s
  }

  lemma StepMatches(m: Map, op: Op)
    requires HoleFree(m, 0) && Allowed(op, |Elements(m)|)
    ensures HoleFree(Apply(m, op), 0) && Elements(Apply(m, op)) == ApplySeq(Elements(m), op)
  {
    hide Elements, HoleFree, Put, Resize, Remove, Has;
    SizeIs(m, 0);
    EmptyElements(m);
    match op
    case Append(v) => PutIndex(m, 0, |Elements(m)|, v);
    case Use(i) =>
      HasIndex(m, 0, i);
      if i == |Elements(m)| { PutIndex(m, 0, i, Null); }
    case Assign(i, v) => PutIndex(m, 0, i, v);
    case Shrink(n) => ShrinkTakes(m, n);
    case RemoveAt(i) => RemoveTakesOut(m, i);
  }

  predicate RunAllowed(s: seq<Value>, ops: seq<Op>)
    decreases |ops|
  {
    ops == [] || (Allowed(ops[0], |s|) && RunAllowed(ApplySeq(s, ops[0]), ops[1..]))
  }

  function Run(m: Map, ops: seq<Op>): Map
    decreases |ops|
  {
    if ops == [] then m else Run(Apply(m, ops[0]), ops[1..])
  }

  function RunSeq(s: seq<Value>, ops: seq<Op>): seq<Value>
    requires RunAllowed(s, ops)
    decreases |ops|
  {
    if ops == [] then s else RunSeq(ApplySeq(s, ops[0]), ops[1..])
  }

  /** Every run keeps the map without holes and its elements those of the sequence. */
  lemma {:induction false} RunMatches(m: Map, ops: seq<Op>)
    requires HoleFree(m, 0) && RunAllowed(Elements(m), ops)
    ensures HoleFree(Run(m, ops), 0) && Elements(Run(m, ops)) == RunSeq(Elements(m), ops)
    decreases |ops|
  {
    hide Elements, HoleFree, Apply, ApplySeq;
    if ops != [] {
      StepMatches(m, ops[0]);
      RunMatches(Apply(m, ops[0]), ops[1..]);
    }
  }

  // ----- growing leaves holes

  lemma {:induction false} PutBehind(m: Map, k: nat, i: nat)
    requires HoleFree(m, k) && i >= k + |Elements(m)|
    ensures ArraySize(Put(m, Index(i), Null)) == i + 1
    ensures HoleFree(Put(m, Index(i), Null), k) <==> i == k + |Elements(m)|
  {
    if m.Entry? { PutBehind(m.rest, k + 1, i); }
  }

  /** Growing makes room by one null at the end: the array is without holes exactly when it grew by one. */
  lemma GrowLeavesHoles(m: Map, n: nat)
    requires HoleFree(m, 0) && n > |Elements(m)|
    ensures ArraySize(Resize(m, n)) == n
    ensures HoleFree(Resize(m, n), 0) <==> n == |Elements(m)| + 1
  {
    SizeIs(m, 0);
    HasIndex(m, 0, n - 1);
    PutBehind(m, 0, n - 1);
  }

  // ----- the value that holds the map

  class ArrayValue {
    var value: Value

    /** Null, or an array without holes. */
    ghost predicate Valid()
      reads this
    {
      value.Null? || (value.Array? && HoleFree(value.entries, 0))
    }

    ghost function Items(): seq<Value>
      requires Valid()
      reads this
    {
      if value.Null? then [] else Elements(value.entries)
    }

    constructor ()
      ensures Valid() && Items() == []
    {
      value := Null;
    }

    function Size(): (n: nat)
      requires Valid()
      reads this
      ensures n == |Items()|
    {
      if value.Null? then 0
      else
        assert ArraySize(value.entries) == |Elements(value.entries)| by { SizeIs(value.entries, 0); }
        ArraySize(value.entries)
    }

    /** A null value turns into an empty array on use. */
    method BecomeArray()
      requires Valid()
      modifies this
      ensures Valid() && value.Array? && Items() == old(Items())
    {
      if value.Null? {
        value := Array(Empty);
      }
    }

    /** operator[]: the value at i, a new null at the end. */
    method At(i: nat) returns (v: Value)
      requires Valid() && i <= Size()
      modifies this
      ensures Valid() && value.Array? && Items() == ApplySeq(old(Items()), Use(i)) && v == Items()[i]
    {
      hide Elements, HoleFree, ArraySize;
      BecomeArray();
      ghost var m := value.entries;
      StepMatches(m, Use(i));
      HasIndex(m, 0, i);
      if !Has(value.entries, Index(i)) {
        value := Array(Put(value.entries, Index(i), Null));
      }
      HasIndex(value.entries, 0, i);
      v := Find(value.entries, Index(i));
    }

    /** Assignment through operator[]. */
    method Set(i: nat, v: Value)
      requires Valid() && i <= Size()
      modifies this
      ensures Valid() && value.Array? && Items() == ApplySeq(old(Items()), Assign(i, v))
    {
      hide Elements, HoleFree, ArraySize, Put;
      BecomeArray();
      StepMatches(value.entries, Assign(i, v));
      value := Array(Put(value.entries, Index(i), v));
    }

    method AppendValue(v: Value)
      requires Valid()
      modifies this
      ensures Valid() && value.Array? && Items() == old(Items()) + [v]
    {
      Set(Size(), v);
    }

    /** Shrinking erases from the new size upwards; the size is then the new one. */
    method ShrinkTo(n: nat)
      requires Valid() && n <= Size()
      modifies this
      ensures Valid() && value.Array? && Items() == old(Items())[..n]
    {
      hide Elements, HoleFree, Put, Erase, EraseRange;
      BecomeArray();
      var size := Size();
      ghost var m := value.entries;
      ShrinkTakes(m, n);
      if n == 0 {
        value := Array(Empty);
        EmptyElements(Empty);
        NoHoles();
        return;
      }
      var entries := value.entries;
      for i := n to size
        invariant EraseRange(entries, i, size) == EraseRange(m, n, size)
      {
        EraseNext(entries, i, size);
        entries := Erase(entries, Index(i));
      }
      EraseDone(entries, size);
      value := Array(entries);
      assert ArraySize(entries) == n;
    }

    /** Removing shifts the later elements down and erases the last. */
    method RemoveIndex(i: nat) returns (found: bool, removed: Value)
      requires Valid()
      modifies this
      ensures Valid() && found == (i < |old(Items())|)
      ensures Items() == ApplySeq(old(Items()), RemoveAt(i))
      ensures found ==> removed == old(Items())[i]
    {
      hide Elements, HoleFree, Put, Erase, Shift;
      if !value.Array? || !Has(value.entries, Index(i)) {
        if value.Array? { HasIndex(value.entries, 0, i); }
        return false, Null;
      }
      ghost var m := value.entries;
      HasIndex(m, 0, i);
      RemoveTakesOut(m, i);
      SizeIs(m, 0);
      removed := Find(value.entries, Index(i));
      var size := Size();
      var entries := value.entries;
      for j := i to size - 1
        invariant Shift(entries, j, size) == Shift(m, i, size)
      {
        ShiftNext(entries, j, size);
        entries := Put(entries, Index(j), Find(entries, Index(j + 1)));
      }
      ShiftDone(entries, size);
      value := Array(Erase(entries, Index(size - 1)));
      found := true;
    }
  }

  lemma NoHoles()
    ensures HoleFree(Empty, 0)
  {
  }

  lemma EraseNext(m: Map, i: nat, n: nat)
    requires i < n
    ensures EraseRange(m, i, n) == EraseRange(Erase(m, Index(i)), i + 1, n)
  {
  }

  lemma EraseDone(m: Map, n: nat)
    ensures EraseRange(m, n, n) == m
  {
  }

  lemma ShiftNext(m: Map, i: nat, n: nat)
    requires i + 1 < n
    ensures Shift(m, i, n) == Shift(Put(m, Index(i), Find(m, Index(i + 1))), i + 1, n)
  {
  }

  lemma ShiftDone(m: Map, n: nat)
    requires n > 0
    ensures Shift(m, n - 1, n) == m
  {
  }
}
