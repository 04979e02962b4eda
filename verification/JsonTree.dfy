/** JSON values as trees, their equality, their deep copy, and what both have to do with the
    values' meaning as unordered key-to-value maps. */
module JsonTree {

  datatype Option<T> = None | Some(value: T)

  /** A number keeps both of its fields; `value` is the double, taken as a real. */
  datatype Json =
    | Null
    | Boolean(flag: bool)
    | Number(isInteger: bool, integer: int, value: real)
    | Text(text: string)
    | Array(elements: seq<Json>)
    | Object(members: seq<Member>)

  datatype Member = Member(key: string, value: Json)

  /** The conversions the C library does: integers to doubles, doubles to integers, text to
      doubles and doubles to text. The module assumes nothing about them. */
  datatype Host = Host(double: int -> real, truncate: real -> int, strtod: string -> real, format: real -> string)

  /** What `strcmp` and `strlen` see of a string: its part before the first NUL. */
  function CString(s: string): (c: string)
    ensures c <= s && '\0' !in c
    ensures c == s || s[|c|] == '\0'
  {
    if s == [] || s[0] == '\0' then [] else [s[0]] + CString(s[1..])
  }

  /** Where the first member stands whose key is `key` as a C string; the length if there is none. */
  function IndexOf(members: seq<Member>, key: string): (n: nat)
    ensures n <= |members|
    ensures n < |members| ==> CString(members[n].key) == CString(key)
    ensures forall i :: 0 <= i < n ==> CString(members[i].key) != CString(key)
  {
    if members == [] || CString(members[0].key) == CString(key) then 0 else 1 + IndexOf(members[1..], key)
  }

  function Get(members: seq<Member>, key: string): Option<Json> {
    var i := IndexOf(members, key);
    if i < |members| then Some(members[i].value) else None
  }

  predicate Equal(a: Json, b: Json)
    decreases a
  {
    match a
    case Null => b.Null?
    case Boolean(x) => b.Boolean? && x == b.flag
    case Number(isInteger, integer, value) =>
      b.Number? && (if isInteger && b.isInteger then integer == b.integer else value == b.value)
    case Text(x) => b.Text? && x == b.text
    case Array(xs) =>
      b.Array? && |xs| == |b.elements| &&
      forall i :: 0 <= i < |xs| ==> Equal(xs[i], b.elements[i])
    case Object(ms) =>
      b.Object? && |ms| == |b.members| &&
      forall i :: 0 <= i < |ms| ==> Includes(b.members, ms[i])
  }

  /** The member's key is found, with an equal value. */
  predicate Includes(members: seq<Member>, m: Member)
    decreases m
  {
    var found := Get(members, m.key);
    found.Some? && Equal(m.value, found.value)
  }

  // ---------------------------------------------------------------- meaning

  /** What a value stands for: arrays keep their order, objects are maps from C strings. */
  datatype Meaning =
    | Nothing
    | Truth(flag: bool)
    | Quantity(integer: int)
    | Words(text: string)
    | List(elements: seq<Meaning>)
    | Fields(fields: map<string, Meaning>)

  function Denote(v: Json): Meaning
    decreases v
  {
    match v
    case Null => Nothing
    case Boolean(x) => Truth(x)
    case Number(_, integer, _) => Quantity(integer)
    case Text(x) => Words(x)
    case Array(xs) => List(seq(|xs|, i requires 0 <= i < |xs| => Denote(xs[i])))
    case Object(ms) => Fields(DenoteMembers(ms))
  }

  /** With repeated keys the first one counts, as in a lookup. */
  function DenoteMembers(ms: seq<Member>): (d: map<string, Meaning>)
    decreases ms
  {
    if ms == [] then map[] else DenoteMembers(ms[1..])[CString(ms[0].key) := Denote(ms[0].value)]
  }

  predicate DistinctKeys(ms: seq<Member>) {
    forall i, j :: 0 <= i < j < |ms| ==> CString(ms[i].key) != CString(ms[j].key)
  }

  /** Every object inside has distinct keys. */
  predicate KeysDistinct(v: Json)
    decreases v
  {
    match v
    case Array(xs) => forall i :: 0 <= i < |xs| ==> KeysDistinct(xs[i])
    case Object(ms) => DistinctKeys(ms) && forall i :: 0 <= i < |ms| ==> KeysDistinct(ms[i].value)
    case _ => true
  }

  predicate AllIntegers(v: Json)
    decreases v
  {
    match v
    case Number(isInteger, _, _) => isInteger
    case Array(xs) => forall i :: 0 <= i < |xs| ==> AllIntegers(xs[i])
    case Object(ms) => forall i :: 0 <= i < |ms| ==> AllIntegers(ms[i].value)
    case _ => true
  }

  /** The map of an object answers exactly the lookups that `Get` answers. */
  lemma {:induction false} DenoteIsGet(ms: seq<Member>, key: string)
    ensures CString(key) in DenoteMembers(ms) <==> IndexOf(ms, key) < |ms|
    ensures IndexOf(ms, key) < |ms| ==> DenoteMembers(ms)[CString(key)] == Denote(ms[IndexOf(ms, key)].value)
    decreases |ms|
  {
    if ms != [] {
      DenoteIsGet(ms[1..], key);
    }
  }

  function Keys(ms: seq<Member>): set<string> {
    set i | 0 <= i < |ms| :: CString(ms[i].key)
  }

  lemma {:induction false} DenoteHasKeys(ms: seq<Member>)
    ensures DenoteMembers(ms).Keys == Keys(ms)
    decreases |ms|
  {
    if ms != [] {
      DenoteHasKeys(ms[1..]);
      assert Keys(ms) == Keys(ms[1..]) + {CString(ms[0].key)} by {
        assert forall i :: 0 <= i < |ms[1..]| ==> ms[1..][i] == ms[i + 1];
        forall k | k in Keys(ms)
          ensures k in Keys(ms[1..]) + {CString(ms[0].key)}
        {
          var i :| 0 <= i < |ms| && CString(ms[i].key) == k;
          assert i > 0 ==> ms[1..][i - 1] == ms[i];
        }
      }
    }
  }

  /** Distinct keys are as many as members: the counting step. */
  lemma {:induction false} DistinctKeysCount(ms: seq<Member>)
    requires DistinctKeys(ms)
    ensures |Keys(ms)| == |ms|
    decreases |ms|
  {
    if ms != [] {
      DistinctKeysCount(ms[1..]);
      DenoteHasKeys(ms);
      DenoteHasKeys(ms[1..]);
      assert CString(ms[0].key) !in Keys(ms[1..]);
    }
  }

  /** Inclusion one way and equal sizes give inclusion the other way. */
  lemma SameKeys(a: set<string>, b: set<string>)
    requires a <= b && |a| == |b|
    ensures a == b
  {
    if !(b <= a) {
      var k :| k in b && k !in a;
      SubsetSize(a, b - {k});
    }
  }

  lemma {:induction false} SubsetSize(a: set<string>, b: set<string>)
    requires a <= b
    ensures |a| <= |b|
    decreases |a|
  {
    if a != {} {
      var k :| k in a;
      SubsetSize(a - {k}, b - {k});
    }
  }

  // ---------------------------------------------------------------- equality is sameness of meaning

  /** On trees with distinct keys and integer numbers, `mp_json_equal` holds exactly when the two
      values mean the same. */
  lemma {:induction false} EqualIsSameMeaning(a: Json, b: Json)
    requires KeysDistinct(a) && KeysDistinct(b) && AllIntegers(a) && AllIntegers(b)
    ensures Equal(a, b) <==> Denote(a) == Denote(b)
    decreases a, 1
  {
    match a
    case Array(xs) =>
      if b.Array? && |xs| == |b.elements| {
        forall i | 0 <= i < |xs|
          ensures Equal(xs[i], b.elements[i]) <==> Denote(a).elements[i] == Denote(b).elements[i]
        {
          EqualIsSameMeaning(xs[i], b.elements[i]);
        }
      }
    case Object(ms) =>
      if b.Object? {
        forall i | 0 <= i < |ms|
          ensures Includes(b.members, ms[i]) <==> Answers(b.members, ms[i])
        {
          IncludedIsAnswered(a, i, b.members);
        }
        AllAnsweredIsSameMap(ms, b.members);
      }
    case _ =>
  }

  /** The map of `members` has the member's key, with the member's meaning. */
  predicate Answers(members: seq<Member>, m: Member) {
    CString(m.key) in DenoteMembers(members) && DenoteMembers(members)[CString(m.key)] == Denote(m.value)
  }

  lemma {:induction false} IncludedIsAnswered(a: Json, i: nat, members: seq<Member>)
    requires a.Object? && i < |a.members|
    requires KeysDistinct(a) && AllIntegers(a)
    requires forall j :: 0 <= j < |members| ==> KeysDistinct(members[j].value) && AllIntegers(members[j].value)
    ensures Includes(members, a.members[i]) <==> Answers(members, a.members[i])
    decreases a, 0
  {
    var m := a.members[i];
    var j := IndexOf(members, m.key);
    DenoteIsGet(members, m.key);
    if j < |members| {
      EqualIsSameMeaning(m.value, members[j].value);
    }
  }

  lemma AllAnsweredIsSameMap(ms: seq<Member>, ns: seq<Member>)
    requires DistinctKeys(ms) && DistinctKeys(ns)
    ensures (|ms| == |ns| && forall i :: 0 <= i < |ms| ==> Answers(ns, ms[i]))
       <==> DenoteMembers(ms) == DenoteMembers(ns)
  {
    hide DenoteMembers, Denote, CString;
    DenoteHasKeys(ms);
    DenoteHasKeys(ns);
    DistinctKeysCount(ms);
    DistinctKeysCount(ns);
    AnswersItself(ms);
    if |ms| == |ns| && forall i :: 0 <= i < |ms| ==> Answers(ns, ms[i]) {
      assert Keys(ms) <= Keys(ns);
      SameKeys(Keys(ms), Keys(ns));
      forall k | k in Keys(ms)
        ensures DenoteMembers(ms)[k] == DenoteMembers(ns)[k]
      {
        var i :| 0 <= i < |ms| && CString(ms[i].key) == k;
        assert Answers(ms, ms[i]) && Answers(ns, ms[i]);
      }
      assert DenoteMembers(ms) == DenoteMembers(ns);
    }
  }

  lemma AnswersItself(ms: seq<Member>)
    requires DistinctKeys(ms)
    ensures forall i :: 0 <= i < |ms| ==> Answers(ms, ms[i])
  {
    forall i | 0 <= i < |ms|
      ensures Answers(ms, ms[i])
    {
      DenoteIsGet(ms, ms[i].key);
    }
  }

  // ---------------------------------------------------------------- when equality is an equivalence

  /** As many different keys as members: no key is repeated. */
  lemma {:induction false} CountMeansDistinct(ms: seq<Member>)
    requires |Keys(ms)| == |ms|
    ensures DistinctKeys(ms)
    decreases |ms|
  {
    hide CString, Keys;
    if ms != [] {
      KeysOfRest(ms);
      KeysAtMost(ms[1..]);
      CountMeansDistinct(ms[1..]);
      FirstIsNew(ms);
    }
  }

  lemma FirstIsNew(ms: seq<Member>)
    requires ms != [] && DistinctKeys(ms[1..]) && CString(ms[0].key) !in Keys(ms[1..])
    ensures DistinctKeys(ms)
  {
    hide CString;
    forall i, j | 0 <= i < j < |ms|
      ensures CString(ms[i].key) != CString(ms[j].key)
    {
      assert ms[1..][j - 1] == ms[j];
      if i == 0 {
        assert CString(ms[1..][j - 1].key) in Keys(ms[1..]);
      } else {
        assert ms[1..][i - 1] == ms[i];
      }
    }
  }

  lemma KeysOfRest(ms: seq<Member>)
    requires ms != []
    ensures Keys(ms) == Keys(ms[1..]) + {CString(ms[0].key)}
  {
    DenoteHasKeys(ms);
    DenoteHasKeys(ms[1..]);
  }

  lemma {:induction false} KeysAtMost(ms: seq<Member>)
    ensures |Keys(ms)| <= |ms|
    decreases |ms|
  {
    if ms != [] {
      KeysOfRest(ms);
      KeysAtMost(ms[1..]);
    }
  }

  /** When distinct keys are all found among as many others, those are distinct, and found back. */
  lemma FoundBothWays(ms: seq<Member>, ns: seq<Member>)
    requires DistinctKeys(ms) && |ms| == |ns|
    requires forall i :: 0 <= i < |ms| ==> IndexOf(ns, ms[i].key) < |ns|
    ensures DistinctKeys(ns)
    ensures forall j :: 0 <= j < |ns| ==> IndexOf(ms, ns[j].key) < |ms|
  {
    hide CString;
    forall k | k in Keys(ms)
      ensures k in Keys(ns)
    {
      var i :| 0 <= i < |ms| && CString(ms[i].key) == k;
      assert CString(ns[IndexOf(ns, ms[i].key)].key) == k;
    }
    DistinctKeysCount(ms);
    KeysAtMost(ns);
    SubsetSize(Keys(ms), Keys(ns));
    SameKeys(Keys(ms), Keys(ns));
    CountMeansDistinct(ns);
    forall j | 0 <= j < |ns|
      ensures IndexOf(ms, ns[j].key) < |ms|
    {
      assert CString(ns[j].key) in Keys(ms);
      var i :| 0 <= i < |ms| && CString(ms[i].key) == CString(ns[j].key);
    }
  }

  /** What a tree with distinct keys equals has distinct keys too, and equals it back. */
  lemma {:induction false} EqualGoesBack(a: Json, b: Json)
    requires KeysDistinct(a) && Equal(a, b)
    ensures KeysDistinct(b) && Equal(b, a)
    decreases a
  {
    match a
    case Array(xs) =>
      forall i | 0 <= i < |xs|
        ensures KeysDistinct(b.elements[i]) && Equal(b.elements[i], xs[i])
      {
        EqualGoesBack(xs[i], b.elements[i]);
      }
    case Object(ms) =>
      var ns := b.members;
      assert forall i :: 0 <= i < |ms| ==> Includes(ns, ms[i]);
      FoundBothWays(ms, ns);
      forall j | 0 <= j < |ns|
        ensures KeysDistinct(ns[j].value) && Includes(ms, ns[j])
      {
        var i := IndexOf(ms, ns[j].key);
        OnlyIndex(ns, j, ms[i].key);
        assert Includes(ns, ms[i]);
        EqualGoesBack(ms[i].value, ns[j].value);
      }
    case _ =>
  }

  lemma {:induction false} EqualsItself(a: Json)
    requires KeysDistinct(a)
    ensures Equal(a, a)
    decreases a
  {
    match a
    case Array(xs) =>
      forall i | 0 <= i < |xs|
        ensures Equal(xs[i], xs[i])
      {
        EqualsItself(xs[i]);
      }
    case Object(ms) =>
      forall i | 0 <= i < |ms|
        ensures Includes(ms, ms[i])
      {
        OnlyIndex(ms, i, ms[i].key);
        EqualsItself(ms[i].value);
      }
    case _ =>
  }

  function Xs(n: nat): string {
    seq(n, _ => 'x')
  }

  /** A key that no member has. */
  lemma {:induction false} FreshKey(ms: seq<Member>) returns (key: string)
    ensures '\0' !in key
    ensures forall i :: 0 <= i < |ms| ==> CString(ms[i].key) != CString(key)
  {
    var n: nat := 0;
    var i := 0;
    while i < |ms|
      invariant i <= |ms|
      invariant forall j :: 0 <= j < i ==> |ms[j].key| < n
    {
      if |ms[i].key| >= n {
        n := |ms[i].key| + 1;
      }
      i := i + 1;
    }
    key := Xs(n);
    assert CString(key) == key;
  }

  /** A repeated key, renamed in its later member, is not missed: the first member answers for it. */
  lemma RenamedIsEqual(ms: seq<Member>, i: nat, j: nat, m: Member)
    requires i < j < |ms| && CString(ms[i].key) == CString(ms[j].key)
    requires forall k :: 0 <= k < |ms| ==> CString(ms[k].key) != CString(m.key)
    requires Equal(Object(ms), Object(ms))
    ensures Equal(Object(ms), Object(ms[j := m])) && !Equal(Object(ms[j := m]), Object(ms))
  {
    hide CString;
    var ns := ms[j := m];
    forall k | 0 <= k < |ms|
      ensures Includes(ns, ms[k])
    {
      var f := IndexOf(ms, ms[k].key);
      assert Includes(ms, ms[k]);
      NotTheSecond(ms, i, j, ms[k].key);
      FirstIndex(ns, f, ms[k].key);
    }
    assert !Includes(ms, ns[j]);
  }

  lemma NotTheSecond(ms: seq<Member>, i: nat, j: nat, key: string)
    requires i < j < |ms| && CString(ms[i].key) == CString(ms[j].key)
    ensures IndexOf(ms, key) != j
  {
  }

  lemma FirstIndex(ns: seq<Member>, i: nat, key: string)
    requires i < |ns| && CString(ns[i].key) == CString(key)
    requires forall j :: 0 <= j < i ==> CString(ns[j].key) != CString(key)
    ensures IndexOf(ns, key) == i
  {
  }

  /** A tree that repeats a key somewhere, if it equals itself at all, equals a tree that does not
      equal it. */
  lemma {:induction false} OneWayPartner(a: Json) returns (b: Json)
    requires !KeysDistinct(a) && Equal(a, a)
    ensures Equal(a, b) && !Equal(b, a)
    decreases a
  {
    hide CString;
    match a
    case Array(xs) =>
      var i :| 0 <= i < |xs| && !KeysDistinct(xs[i]);
      var y := OneWayPartner(xs[i]);
      b := Array(xs[i := y]);
      assert !Equal(b.elements[i], xs[i]);
    case Object(ms) =>
      if DistinctKeys(ms) {
        var i :| 0 <= i < |ms| && !KeysDistinct(ms[i].value);
        MemberEqualsItself(ms, i);
        var y := OneWayPartner(ms[i].value);
        ReplacedIsEqual(ms, i, y);
        b := Object(ms[i := Member(ms[i].key, y)]);
      } else {
        b := RepeatedKeyPartner(ms);
      }
  }

  lemma RepeatedKeyPartner(ms: seq<Member>) returns (b: Json)
    requires !DistinctKeys(ms) && Equal(Object(ms), Object(ms))
    ensures Equal(Object(ms), b) && !Equal(b, Object(ms))
  {
    hide Equal, CString;
    var i, j :| 0 <= i < j < |ms| && CString(ms[i].key) == CString(ms[j].key);
    var key := FreshKey(ms);
    RenamedIsEqual(ms, i, j, Member(key, Null));
    b := Object(ms[j := Member(key, Null)]);
  }

  lemma MemberEqualsItself(ms: seq<Member>, i: nat)
    requires i < |ms| && DistinctKeys(ms) && Equal(Object(ms), Object(ms))
    ensures Equal(ms[i].value, ms[i].value)
  {
    hide CString;
    OnlyIndex(ms, i, ms[i].key);
    assert Includes(ms, ms[i]);
  }

  lemma ReplacedIsEqual(ms: seq<Member>, i: nat, y: Json)
    requires i < |ms| && DistinctKeys(ms) && Equal(Object(ms), Object(ms))
    requires Equal(ms[i].value, y) && !Equal(y, ms[i].value)
    ensures var b := Object(ms[i := Member(ms[i].key, y)]); Equal(Object(ms), b) && !Equal(b, Object(ms))
  {
    hide CString, Equal;
    var ns := ms[i := Member(ms[i].key, y)];
    forall k | 0 <= k < |ms|
      ensures Includes(ns, ms[k])
    {
      MemberEqualsItself(ms, k);
      OnlyIndex(ns, k, ms[k].key);
    }
    OnlyIndex(ms, i, ns[i].key);
    AllIncluded(ms, ns);
    OneNotIncluded(ns, ms, i);
  }

  lemma AllIncluded(ms: seq<Member>, ns: seq<Member>)
    requires |ms| == |ns| && forall k :: 0 <= k < |ms| ==> Includes(ns, ms[k])
    ensures Equal(Object(ms), Object(ns))
  {
  }

  lemma OneNotIncluded(ms: seq<Member>, ns: seq<Member>, i: nat)
    requires i < |ms| && !Includes(ns, ms[i])
    ensures !Equal(Object(ms), Object(ns))
  {
  }

  /** Exactly the trees without a repeated key equal themselves and are equalled back by all they
      equal, doubles included. */
  lemma ReflexiveAndSymmetricIff(a: Json)
    ensures KeysDistinct(a) <==> Equal(a, a) && forall b :: Equal(a, b) ==> Equal(b, a)
  {
    if KeysDistinct(a) {
      EqualsItself(a);
      forall b | Equal(a, b)
        ensures Equal(b, a)
      {
        EqualGoesBack(a, b);
      }
    } else if Equal(a, a) {
      var b := OneWayPartner(a);
    }
  }

  /** Every integer inside is one of these, and carries its own double, as `mp_json_integer` and the
      parser make it. */
  ghost predicate Over(v: Json, ints: iset<int>, double: int -> real)
    decreases v
  {
    match v
    case Number(isInteger, integer, value) => isInteger ==> integer in ints && value == double(integer)
    case Array(xs) => forall i :: 0 <= i < |xs| ==> Over(xs[i], ints, double)
    case Object(ms) => forall i :: 0 <= i < |ms| ==> Over(ms[i].value, ints, double)
    case _ => true
  }

  ghost predicate Injective(ints: iset<int>, double: int -> real) {
    forall x, y :: x in ints && y in ints && double(x) == double(y) ==> x == y
  }

  lemma {:induction false} EqualIsTransitive(a: Json, b: Json, c: Json, ints: iset<int>, double: int -> real)
    requires Over(a, ints, double) && Over(b, ints, double) && Over(c, ints, double) && Injective(ints, double)
    requires Equal(a, b) && Equal(b, c)
    ensures Equal(a, c)
    decreases a
  {
    match a
    case Array(xs) =>
      forall i | 0 <= i < |xs|
        ensures Equal(xs[i], c.elements[i])
      {
        EqualIsTransitive(xs[i], b.elements[i], c.elements[i], ints, double);
      }
    case Object(ms) =>
      forall i | 0 <= i < |ms|
        ensures Includes(c.members, ms[i])
      {
        assert Includes(b.members, ms[i]);
        var j := IndexOf(b.members, ms[i].key);
        var m := b.members[j];
        assert Includes(c.members, m);
        SameIndex(c.members, m.key, ms[i].key);
        EqualIsTransitive(ms[i].value, m.value, c.members[IndexOf(c.members, m.key)].value, ints, double);
      }
    case _ =>
  }

  lemma SameIndex(ns: seq<Member>, key: string, other: string)
    requires CString(key) == CString(other)
    ensures IndexOf(ns, key) == IndexOf(ns, other)
  {
  }

  ghost predicate Linked(a: Json, b: Json, c: Json, ints: iset<int>, double: int -> real) {
    && Over(a, ints, double) && Over(b, ints, double) && Over(c, ints, double)
    && Equal(a, b) && Equal(b, c)
  }

  /** Equality is transitive on the trees over these integers exactly if no two of them have the
      same double. */
  lemma TransitiveIff(ints: iset<int>, double: int -> real)
    ensures Injective(ints, double) <==> forall a, b, c :: Linked(a, b, c, ints, double) ==> Equal(a, c)
  {
    if Injective(ints, double) {
      forall a, b, c | Linked(a, b, c, ints, double)
        ensures Equal(a, c)
      {
        EqualIsTransitive(a, b, c, ints, double);
      }
    } else {
      var x, y :| x in ints && y in ints && double(x) == double(y) && x != y;
      var a, b, c := Number(true, x, double(x)), Number(false, x, double(x)), Number(true, y, double(y));
      assert Linked(a, b, c, ints, double) && !Equal(a, c);
    }
  }

  /** Integer trees with distinct keys need no such care. */
  lemma EqualIsEquivalence(a: Json, b: Json, c: Json)
    requires KeysDistinct(a)
    ensures Equal(a, a)
    ensures Equal(a, b) ==> Equal(b, a)
    ensures AllIntegers(a) && AllIntegers(b) && AllIntegers(c) && Equal(a, b) && Equal(b, c) ==> Equal(a, c)
  {
    EqualsItself(a);
    if Equal(a, b) {
      EqualGoesBack(a, b);
      if AllIntegers(a) && AllIntegers(b) && AllIntegers(c) && Equal(b, c) {
        EqualGoesBack(b, c);
        EqualIsSameMeaning(a, b);
        EqualIsSameMeaning(b, c);
        EqualIsSameMeaning(a, c);
      }
    }
  }

  /** With a repeated key it is not symmetric: `{"x":true,"x":true}` equals `{"x":true,"y":null}`,
      but not the other way round. */
  lemma RepeatedKeysBreakSymmetry()
    ensures exists a, b :: AllIntegers(a) && AllIntegers(b) && KeysDistinct(b) && Equal(a, b) && !Equal(b, a)
  {
    hide CString;
    var x, y := Member("x", Boolean(true)), Member("y", Null);
    var a, b := Object([x, x]), Object([x, y]);
    DifferentKeys();
    assert a.members[0] == x && a.members[1] == x && b.members[0] == x && b.members[1] == y;
    assert Equal(x.value, x.value);
    assert IndexOf(b.members, "x") == 0 && Includes(b.members, x);
    assert Equal(a, b);
    assert IndexOf(a.members, "y") == 2 && !Includes(a.members, y);
    assert !Includes(a.members, b.members[1]);
    assert AllIntegers(x.value) && AllIntegers(y.value) && KeysDistinct(x.value) && KeysDistinct(y.value);
    assert forall i :: 0 <= i < 2 ==> a.members[i] == x && b.members[i] in [x, y];
    assert AllIntegers(a) && AllIntegers(b) && KeysDistinct(b);
  }

  /** Nor is it reflexive: `{"x":true,"x":null}` does not equal itself. */
  lemma RepeatedKeysBreakReflexivity()
    ensures exists a :: AllIntegers(a) && !Equal(a, a)
  {
    hide CString;
    var x, y := Member("x", Boolean(true)), Member("x", Null);
    var a := Object([x, y]);
    assert a.members[0] == x && a.members[1] == y;
    assert IndexOf(a.members, "x") == 0 && !Includes(a.members, y);
    assert !Includes(a.members, a.members[1]);
    assert AllIntegers(a) && !Equal(a, a);
  }

  lemma DifferentKeys()
    ensures CString("x") != CString("y")
  {
    assert CString("x")[0] == 'x' && CString("y")[0] == 'y';
  }

  /** Two different integers with the same double are both equal to that double. */
  lemma MixedNumbersBreakEqual(a: int, b: int, double: int -> real)
    requires a != b && double(a) == double(b)
    ensures var x, y := Number(true, a, double(a)), Number(true, b, double(b));
      !Equal(x, y) && exists d :: Equal(x, d) && Equal(d, y)
  {
    var d := Number(false, a, double(a));
    assert Equal(Number(true, a, double(a)), d) && Equal(d, Number(true, b, double(b)));
  }

  // ---------------------------------------------------------------- deep copy

  /** A copied key is a C string; a copied text keeps its length. */
  function Copy(v: Json, host: Host): Json
    decreases v
  {
    match v
    case Number(isInteger, integer, value) =>
      if isInteger then Number(true, integer, host.double(integer)) else Number(false, host.truncate(value), value)
    case Array(xs) => Array(seq(|xs|, i requires 0 <= i < |xs| => Copy(xs[i], host)))
    case Object(ms) => Object(CopyMembers(ms, host))
    case _ => v
  }

  function CopyMembers(ms: seq<Member>, host: Host): (ns: seq<Member>)
    ensures |ns| == |ms|
    decreases ms
  {
    seq(|ms|, i requires 0 <= i < |ms| => Member(CString(ms[i].key), Copy(ms[i].value, host)))
  }

  /** Any value whose objects have distinct keys equals its copy, doubles included. */
  lemma {:induction false} CopyIsEqual(v: Json, host: Host)
    requires KeysDistinct(v)
    ensures Equal(v, Copy(v, host)) && KeysDistinct(Copy(v, host))
    decreases v
  {
    match v
    case Array(xs) =>
      forall i | 0 <= i < |xs|
        ensures Equal(xs[i], Copy(xs[i], host)) && KeysDistinct(Copy(xs[i], host))
      {
        CopyIsEqual(xs[i], host);
      }
    case Object(ms) =>
      var ns := Copy(v, host).members;
      forall i | 0 <= i < |ms|
        ensures Includes(ns, ms[i]) && KeysDistinct(ns[i].value)
      {
        CopyIsEqual(ms[i].value, host);
        assert CString(ns[i].key) == CString(ms[i].key);
        OnlyIndex(ns, i, ms[i].key);
      }
    case _ =>
  }

  lemma OnlyIndex(ns: seq<Member>, i: nat, key: string)
    requires i < |ns| && CString(ns[i].key) == CString(key)
    requires forall j :: 0 <= j < |ns| && j != i ==> CString(ns[j].key) != CString(key)
    ensures IndexOf(ns, key) == i
  {
  }

  /** A value equals the copy of another, whose integers carry their own doubles, exactly if it equals
      that other. */
  lemma {:induction false} EqualToCopyIff(v: Json, w: Json, host: Host, ints: iset<int>)
    requires Over(w, ints, host.double)
    ensures Equal(v, Copy(w, host)) <==> Equal(v, w)
    decreases v
  {
    match v
    case Array(xs) =>
      if w.Array? && |xs| == |w.elements| {
        forall i | 0 <= i < |xs|
          ensures Equal(xs[i], Copy(w, host).elements[i]) <==> Equal(xs[i], w.elements[i])
        {
          EqualToCopyIff(xs[i], w.elements[i], host, ints);
        }
      }
    case Object(ms) =>
      if w.Object? {
        forall i | 0 <= i < |ms|
          ensures Includes(CopyMembers(w.members, host), ms[i]) <==> Includes(w.members, ms[i])
        {
          var j := IndexOf(w.members, ms[i].key);
          SameIndexInCopy(w.members, ms[i].key, host);
          if j < |w.members| {
            EqualToCopyIff(ms[i].value, w.members[j].value, host, ints);
          }
        }
      }
    case _ =>
  }

  lemma {:induction false} SameIndexInCopy(ms: seq<Member>, key: string, host: Host)
    ensures IndexOf(CopyMembers(ms, host), key) == IndexOf(ms, key)
    decreases |ms|
  {
    hide Copy;
    if ms != [] {
      SameIndexInCopy(ms[1..], key, host);
      assert CopyMembers(ms, host)[1..] == CopyMembers(ms[1..], host);
      assert CString(CString(ms[0].key)) == CString(ms[0].key);
    }
  }

  /** So a value equals its copy exactly if it equals itself, repeated keys or not. */
  lemma CopyIsEqualIff(v: Json, host: Host, ints: iset<int>)
    requires Over(v, ints, host.double)
    ensures Equal(v, Copy(v, host)) <==> Equal(v, v)
  {
    EqualToCopyIff(v, v, host, ints);
  }

  /** Copying keeps the meaning even of objects with repeated keys. */
  lemma {:induction false} CopyKeepsMeaning(v: Json, host: Host)
    requires AllIntegers(v)
    ensures Denote(Copy(v, host)) == Denote(v)
    decreases v
  {
    match v
    case Array(xs) =>
      var ys := Copy(v, host).elements;
      forall i | 0 <= i < |xs|
        ensures Denote(ys[i]) == Denote(xs[i])
      {
        CopyKeepsMeaning(xs[i], host);
      }
      assert Denote(v).elements == Denote(Copy(v, host)).elements;
    case Object(ms) => CopyKeepsMembers(ms, host);
    case _ =>
  }

  lemma {:induction false} CopyKeepsMembers(ms: seq<Member>, host: Host)
    requires forall i :: 0 <= i < |ms| ==> AllIntegers(ms[i].value)
    ensures DenoteMembers(CopyMembers(ms, host)) == DenoteMembers(ms)
    decreases ms
  {
    if ms != [] {
      CopyKeepsMeaning(ms[0].value, host);
      CopyKeepsMembers(ms[1..], host);
      assert CopyMembers(ms, host)[1..] == CopyMembers(ms[1..], host);
      assert CString(CString(ms[0].key)) == CString(ms[0].key);
    }
  }

  // ---------------------------------------------------------------- the loops

  /** `mp_json_object_get`. */
  method FindValue(members: seq<Member>, key: string) returns (r: Option<Json>)
    ensures r == Get(members, key)
  {
    for i := 0 to |members|
      invariant IndexOf(members, key) >= i
    {
      if CString(members[i].key) == CString(key) {
        return Some(members[i].value);
      }
    }
    r := None;
  }

  /** `mp_json_equal`. */
  method Compare(a: Json, b: Json) returns (same: bool)
    ensures same == Equal(a, b)
    decreases a
  {
    match a
    case Null => same := b.Null?;
    case Boolean(x) => same := b.Boolean? && x == b.flag;
    case Number(isInteger, integer, value) =>
      if !b.Number? {
        same := false;
      } else if isInteger && b.isInteger {
        same := integer == b.integer;
      } else {
        same := value == b.value;
      }
    case Text(x) => same := b.Text? && x == b.text;
    case Array(xs) =>
      if !b.Array? || |xs| != |b.elements| {
        return false;
      }
      for i := 0 to |xs|
        invariant forall j :: 0 <= j < i ==> Equal(xs[j], b.elements[j])
      {
        var equal := Compare(xs[i], b.elements[i]);
        if !equal {
          return false;
        }
      }
      same := true;
    case Object(ms) =>
      if !b.Object? || |ms| != |b.members| {
        return false;
      }
      for i := 0 to |ms|
        invariant forall j :: 0 <= j < i ==> Includes(b.members, ms[j])
      {
        var found := FindValue(b.members, ms[i].key);
        if found.None? {
          assert !Includes(b.members, ms[i]);
          return false;
        }
        var equal := Compare(ms[i].value, found.value);
        if !equal {
          assert !Includes(b.members, ms[i]);
          return false;
        }
      }
      same := true;
  }

  /** `mp_json_deep_copy`, with the allocator granting everything. */
  method DeepCopy(v: Json, host: Host) returns (copy: Json)
    ensures copy == Copy(v, host)
    decreases v
  {
    match v
    case Number(isInteger, integer, value) =>
      copy := if isInteger then Number(true, integer, host.double(integer)) else Number(false, host.truncate(value), value);
    case Array(xs) =>
      var ys: seq<Json> := [];
      for i := 0 to |xs|
        invariant |ys| == i && forall j :: 0 <= j < i ==> ys[j] == Copy(xs[j], host)
      {
        var y := DeepCopy(xs[i], host);
        ys := ys + [y];
      }
      copy := Array(ys);
    case Object(ms) =>
      var ns: seq<Member> := [];
      for i := 0 to |ms|
        invariant |ns| == i && forall j :: 0 <= j < i ==> ns[j] == CopyMembers(ms, host)[j]
      {
        var value := DeepCopy(ms[i].value, host);
        ns := ns + [Member(CString(ms[i].key), value)];
      }
      copy := Object(ns);
    case _ => copy := v;
  }
}
