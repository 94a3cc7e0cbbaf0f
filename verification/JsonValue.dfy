/**
 The jsoncpp value tree and its ordering.  One character of a string stands for one byte.
 An array and an object hold the same kind of ordered map; an array maps indices and may
 have holes, an object maps names.
 */
module JsonValue {

  datatype Key = Index(i: nat) | Name(s: string)

  datatype Value =
    | Null
    | Int(num: int)
    | UInt(uns: nat)
    | Real(dbl: real)
    | Str(str: string)
    | Bool(flag: bool)
    | Array(entries: Map)
    | Object(entries: Map)

  /** A std::map as the list of its pairs in key order. */
  datatype Map = Empty | Entry(key: Key, value: Value, rest: Map)

  /** Position in the enumeration of value types. */
  function Rank(v: Value): nat {
    match v
    case Null => 0
    case Int(_) => 1
    case UInt(_) => 2
    case Real(_) => 3
    case Str(_) => 4
    case Bool(_) => 5
    case Array(_) => 6
    case Object(_) => 7
  }

  function Size(m: Map): nat {
    match m
    case Empty => 0
    case Entry(_, _, rest) => 1 + Size(rest)
  }

  // ----- comparison of strings and keys

  /** Sign of memcmp over the first n bytes. */
  function Memcmp(a: string, b: string, n: nat): int
    requires n <= |a| && n <= |b|
  {
    if n == 0 then 0
    else if a[0] < b[0] then -1
    else if a[0] > b[0] then 1
    else Memcmp(a[1..], b[1..], n - 1)
  }

  predicate StringLess(a: string, b: string) {
    var n := if |a| < |b| then |a| else |b|;
    var comp := Memcmp(a, b, n);
    if comp < 0 then true else if comp > 0 then false else |a| < |b|
  }

  predicate StringEqual(a: string, b: string) {
    |a| == |b| && Memcmp(a, b, |a|) == 0
  }

  /** Keys of one map are all indices or all names. */
  predicate KeyLess(a: Key, b: Key)
    requires a.Index? == b.Index?
  {
    if a.Index? then a.i < b.i else StringLess(a.s, b.s)
  }

  predicate KeyEqual(a: Key, b: Key)
    requires a.Index? == b.Index?
  {
    if a.Index? then a.i == b.i else StringEqual(a.s, b.s)
  }

  lemma {:induction false} StringOrder(a: string, b: string)
    ensures StringEqual(a, b) <==> a == b
    ensures !(StringLess(a, b) && StringLess(b, a))
    ensures StringLess(a, b) || a == b || StringLess(b, a)
    ensures !StringLess(a, a)
    decreases |a|
  {
    if |a| > 0 && |b| > 0 && a[0] == b[0] {
      StringOrder(a[1..], b[1..]);
      assert a == b <==> a[1..] == b[1..] by {
        assert a == [a[0]] + a[1..] && b == [b[0]] + b[1..];
      }
    } else if |a| > 0 {
      StringOrder(a[1..], a[1..]);
    }
  }

  lemma {:induction false} StringTransitive(a: string, b: string, c: string)
    requires StringLess(a, b) && StringLess(b, c)
    ensures StringLess(a, c)
    decreases |a|
  {
    if |a| > 0 && a[0] == b[0] == c[0] {
      StringTransitive(a[1..], b[1..], c[1..]);
    }
  }

  lemma KeyOrder(a: Key, b: Key)
    requires a.Index? == b.Index?
    ensures KeyEqual(a, b) <==> a == b
    ensures !(KeyLess(a, b) && KeyLess(b, a)) && !KeyLess(a, a)
    ensures KeyLess(a, b) || a == b || KeyLess(b, a)
  {
    if a.Name? { StringOrder(a.s, b.s); }
  }

  // ----- operations of a map

  function Find(m: Map, key: Key): Value {
    match m
    case Empty => Null
    case Entry(k, v, rest) => if k == key then v else Find(rest, key)
  }

  /** Insertion or replacement in key order. */
  function Put(m: Map, key: Key, value: Value): Map {
    match m
    case Empty => Entry(key, value, Empty)
    case Entry(k, v, rest) =>
      if k == key then Entry(k, value, rest)
      else if k.Index? == key.Index? && KeyLess(key, k) then Entry(key, value, m)
      else Entry(k, v, Put(rest, key, value))
  }

  /** Highest index of an array plus one. */
  function ArraySize(m: Map): (n: nat)
    ensures n > 0 <==> m.Entry?
  {
    match m
    case Empty => 0
    case Entry(k, _, rest) => if rest.Empty? then (if k.Index? then k.i + 1 else 1) else ArraySize(rest)
  }

  // ----- comparison of values

  /** Map keys have the kind the container asks for; containers hold fewer than 2^31 pairs. */
  predicate KindOk(m: Map, arr: bool) {
    m.Entry? ==> m.key.Index? == arr && WellKinded(m.value) && KindOk(m.rest, arr)
  }

  predicate WellKinded(v: Value) {
    match v
    case Array(m) => Size(m) < 0x8000_0000 && KindOk(m, true)
    case Object(m) => Size(m) < 0x8000_0000 && KindOk(m, false)
    case _ => true
  }

  /** Conversion to a 32-bit signed integer. */
  function Int32(x: int): int {
    (x + 0x8000_0000) % 0x1_0000_0000 - 0x8000_0000
  }

  function Nodes(v: Value): nat {
    if v.Array? || v.Object? then 1 + MapNodes(v.entries) else 1
  }

  function MapNodes(m: Map): nat {
    if m.Empty? then 0 else 1 + Nodes(m.value) + MapNodes(m.rest)
  }

  predicate Less(v: Value, w: Value)
    requires WellKinded(v) && WellKinded(w)
    decreases Nodes(v) + Nodes(w), 0
  {
    if Rank(v) != Rank(w) then Rank(v) < Rank(w)
    else match v
      case Null => false
      case Int(i) => i < w.num
      case UInt(u) => u < w.uns
      case Real(r) => r < w.dbl
      case Str(s) => StringLess(s, w.str)
      case Bool(b) => !b && w.flag
      case Array(m) => ContainerLess(m, w.entries, true)
      case Object(m) => ContainerLess(m, w.entries, false)
  }

  /** By size, the difference narrowed to an int, then pair by pair. */
  predicate ContainerLess(m: Map, n: Map, arr: bool)
    requires KindOk(m, arr) && KindOk(n, arr)
    decreases MapNodes(m) + MapNodes(n), 2
  {
    var delta := Int32(Size(m) - Size(n));
    if delta != 0 then delta < 0 else MapLess(m, n, arr)
  }

  /** Comparison of two pairs: by key, then by value. */
  predicate EntryLess(m: Map, n: Map, arr: bool)
    requires m.Entry? && n.Entry? && KindOk(m, arr) && KindOk(n, arr)
    decreases MapNodes(m) + MapNodes(n), 0
  {
    KeyLess(m.key, n.key) || (!KeyLess(n.key, m.key) && Less(m.value, n.value))
  }

  /** Lexicographic comparison of the pairs in order. */
  predicate MapLess(m: Map, n: Map, arr: bool)
    requires KindOk(m, arr) && KindOk(n, arr)
    decreases MapNodes(m) + MapNodes(n), 1
  {
    if n.Empty? then false
    else if m.Empty? then true
    else if EntryLess(m, n, arr) then true
    else if EntryLess(n, m, arr) then false
    else MapLess(m.rest, n.rest, arr)
  }

  /** operator== */
  predicate Equal(v: Value, w: Value)
    requires WellKinded(v) && WellKinded(w)
  {
    Rank(v) == Rank(w) &&
    match v
    case Null => true
    case Int(i) => i == w.num
    case UInt(u) => u == w.uns
    case Real(r) => r == w.dbl
    case Str(s) => StringEqual(s, w.str)
    case Bool(b) => b == w.flag
    case Array(m) => Size(m) == Size(w.entries) && MapEqual(m, w.entries, true)
    case Object(m) => Size(m) == Size(w.entries) && MapEqual(m, w.entries, false)
  }

  predicate MapEqual(m: Map, n: Map, arr: bool)
    requires KindOk(m, arr) && KindOk(n, arr)
  {
    match m
    case Empty => n.Empty?
    case Entry(k, v, rest) => n.Entry? && KeyEqual(k, n.key) && Equal(v, n.value) && MapEqual(rest, n.rest, arr)
  }

  lemma ContainerOrder(m: Map, n: Map, arr: bool)
    requires KindOk(m, arr) && KindOk(n, arr) && Size(m) < 0x8000_0000 && Size(n) < 0x8000_0000
    ensures ContainerLess(m, n, arr) <==> Size(m) < Size(n) || (Size(m) == Size(n) && MapLess(m, n, arr))
  {
    hide MapLess, Size;
  }

  // ----- operator< is a strict total order, and its ties are exactly operator==

  /** operator== is identity of trees. */
  lemma {:induction false} EqualIsIdentity(v: Value, w: Value)
    requires WellKinded(v) && WellKinded(w)
    ensures Equal(v, w) <==> v == w
    decreases Nodes(v)
  {
    if Rank(v) == Rank(w) {
      match v
      case Str(s) => StringOrder(s, w.str);
      case Array(m) => MapEqualIsIdentity(m, w.entries, true);
      case Object(m) => MapEqualIsIdentity(m, w.entries, false);
      case _ =>
    }
  }

  lemma {:induction false} MapEqualIsIdentity(m: Map, n: Map, arr: bool)
    requires KindOk(m, arr) && KindOk(n, arr)
    ensures MapEqual(m, n, arr) <==> m == n
    decreases MapNodes(m)
  {
    if m.Entry? && n.Entry? {
      KeyOrder(m.key, n.key);
      EqualIsIdentity(m.value, n.value);
      MapEqualIsIdentity(m.rest, n.rest, arr);
    }
  }

  lemma {:induction false} Irreflexive(v: Value)
    requires WellKinded(v)
    ensures !Less(v, v)
  {
    match v
    case Str(s) => StringOrder(s, s);
    case Array(m) => MapIrreflexive(m, true);
    case Object(m) => MapIrreflexive(m, false);
    case _ =>
  }

  lemma {:induction false} MapIrreflexive(m: Map, arr: bool)
    requires KindOk(m, arr)
    ensures !MapLess(m, m, arr)
  {
    if m.Entry? {
      KeyOrder(m.key, m.key);
      Irreflexive(m.value);
      MapIrreflexive(m.rest, arr);
    }
  }

  /** Never both v < w and w < v, and one of them unless the trees are equal. */
  lemma {:induction false} Trichotomy(v: Value, w: Value)
    requires WellKinded(v) && WellKinded(w)
    ensures !(Less(v, w) && Less(w, v))
    ensures !Less(v, w) && !Less(w, v) <==> Equal(v, w)
    decreases Nodes(v) + Nodes(w)
  {
    hide ContainerLess;
    EqualIsIdentity(v, w);
    Irreflexive(v);
    if Rank(v) == Rank(w) {
      match v
      case Str(s) => StringOrder(s, w.str);
      case Array(m) => ContainerOrder(m, w.entries, true); ContainerOrder(w.entries, m, true); MapTrichotomy(m, w.entries, true);
      case Object(m) => ContainerOrder(m, w.entries, false); ContainerOrder(w.entries, m, false); MapTrichotomy(m, w.entries, false);
      case _ =>
    }
  }

  lemma {:induction false} MapTrichotomy(m: Map, n: Map, arr: bool)
    requires KindOk(m, arr) && KindOk(n, arr)
    ensures !(MapLess(m, n, arr) && MapLess(n, m, arr))
    ensures m != n ==> MapLess(m, n, arr) || MapLess(n, m, arr)
    decreases MapNodes(m) + MapNodes(n)
  {
    if m.Entry? && n.Entry? {
      KeyOrder(m.key, n.key);
      Trichotomy(m.value, n.value);
      EqualIsIdentity(m.value, n.value);
      MapTrichotomy(m.rest, n.rest, arr);
    }
  }

  lemma {:induction false} Transitive(u: Value, v: Value, w: Value)
    requires WellKinded(u) && WellKinded(v) && WellKinded(w)
    requires Less(u, v) && Less(v, w)
    ensures Less(u, w)
    decreases Nodes(u) + Nodes(v) + Nodes(w)
  {
    hide ContainerLess;
    if Rank(u) == Rank(v) == Rank(w) {
      match u
      case Str(s) => StringTransitive(s, v.str, w.str);
      case Array(m) => ContainerTransitive(m, v.entries, w.entries, true);
      case Object(m) => ContainerTransitive(m, v.entries, w.entries, false);
      case _ =>
    }
  }

  lemma ContainerTransitive(l: Map, m: Map, n: Map, arr: bool)
    requires KindOk(l, arr) && KindOk(m, arr) && KindOk(n, arr)
    requires Size(l) < 0x8000_0000 && Size(m) < 0x8000_0000 && Size(n) < 0x8000_0000
    requires ContainerLess(l, m, arr) && ContainerLess(m, n, arr)
    ensures ContainerLess(l, n, arr)
    decreases MapNodes(l) + MapNodes(m) + MapNodes(n), 2
  {
    hide ContainerLess, MapLess, Size;
    ContainerOrder(l, m, arr);
    ContainerOrder(m, n, arr);
    ContainerOrder(l, n, arr);
    if Size(l) == Size(m) == Size(n) {
      MapTransitive(l, m, n, arr);
    }
  }

  /** Two pairs are tied exactly when they are the same pair. */
  lemma EntryOrder(m: Map, n: Map, arr: bool)
    requires m.Entry? && n.Entry? && KindOk(m, arr) && KindOk(n, arr)
    ensures !(EntryLess(m, n, arr) && EntryLess(n, m, arr))
    ensures !EntryLess(m, n, arr) && !EntryLess(n, m, arr) ==> m.key == n.key && m.value == n.value
  {
    KeyOrder(m.key, n.key);
    Trichotomy(m.value, n.value);
    EqualIsIdentity(m.value, n.value);
  }

  lemma EntryTransitive(l: Map, m: Map, n: Map, arr: bool)
    requires l.Entry? && m.Entry? && n.Entry? && KindOk(l, arr) && KindOk(m, arr) && KindOk(n, arr)
    requires EntryLess(l, m, arr) && EntryLess(m, n, arr)
    ensures EntryLess(l, n, arr)
    decreases MapNodes(l) + MapNodes(m) + MapNodes(n), 0
  {
    KeyOrder(l.key, m.key);
    KeyOrder(m.key, n.key);
    KeyOrder(l.key, n.key);
    if l.key == m.key == n.key {
      Transitive(l.value, m.value, n.value);
    } else if KeyLess(l.key, m.key) && KeyLess(m.key, n.key) && l.key.Name? {
      StringTransitive(l.key.s, m.key.s, n.key.s);
    }
  }

  lemma {:induction false} MapTransitive(l: Map, m: Map, n: Map, arr: bool)
    requires KindOk(l, arr) && KindOk(m, arr) && KindOk(n, arr)
    requires MapLess(l, m, arr) && MapLess(m, n, arr)
    ensures MapLess(l, n, arr)
    decreases MapNodes(l) + MapNodes(m) + MapNodes(n), 1
  {
    if l.Entry? {
      EntryOrder(l, m, arr);
      EntryOrder(m, n, arr);
      EntryOrder(l, n, arr);
      if EntryLess(l, m, arr) && EntryLess(m, n, arr) {
        EntryTransitive(l, m, n, arr);
      } else if !EntryLess(l, m, arr) && !EntryLess(m, n, arr) {
        MapTransitive(l.rest, m.rest, n.rest, arr);
      }
    }
  }
}
