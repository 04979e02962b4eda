/** The OData query pipeline (src/serialization/odata.c): $filter, $orderby by an in-place bubble
    sort over several keys, and $top/$skip paging. Sections 11.2.5.1 to 11.2.5.4 of OData Version
    4.0 Part 1: Protocol name the options. */
module OData {

  /** A property's value as the comparison sees it. `Other` stands for every JSON type that is
      neither number nor string; a C string is its bytes up to the NUL. */
  datatype Scalar = Number(n: real) | Text(s: seq<nat>) | Other(tag: nat)

  type Entity = map<string, Scalar>

  /** One $orderby item: the text before its first space, and whether " desc" occurs in it. */
  datatype Key = Key(property: string, descending: bool)

  // ---------------------------------------------------------------- reading an $orderby item

  /** `strchr(order, ' ')`, or the end. */
  function FirstSpace(order: string): (i: nat)
    ensures i <= |order|
    ensures forall j :: 0 <= j < i ==> order[j] != ' '
    ensures i < |order| ==> order[i] == ' '
  {
    if order == [] || order[0] == ' ' then 0 else 1 + FirstSpace(order[1..])
  }

  /** `strstr(text, part) != NULL` */
  predicate Contains(text: string, part: string) {
    part <= text || (text != [] && Contains(text[1..], part))
  }

  function ParseKey(order: string): Key {
    Key(order[..FirstSpace(order)], Contains(order, " desc"))
  }

  /** `part` stands at index `i`. */
  predicate StandsAt(text: string, part: string, i: nat) {
    i + |part| <= |text| && text[i..i + |part|] == part
  }

  lemma StandsFurther(text: string, part: string, i: nat)
    requires text != []
    ensures StandsAt(text, part, i + 1) <==> StandsAt(text[1..], part, i)
  {
    if i + 1 + |part| <= |text| {
      assert text[1..][i..i + |part|] == text[i + 1..i + 1 + |part|];
    }
  }

  lemma {:induction false} ContainsIff(text: string, part: string)
    ensures Contains(text, part) <==> exists i :: StandsAt(text, part, i)
  {
    assert StandsAt(text, part, 0) <==> part <= text;
    hide StandsAt;
    if text != [] {
      ContainsIff(text[1..], part);
      forall i: nat
        ensures StandsAt(text, part, i + 1) <==> StandsAt(text[1..], part, i)
      {
        StandsFurther(text, part, i);
      }
      assert forall i: nat :: StandsAt(text, part, i) && i > 0 ==> StandsAt(text[1..], part, i - 1);
    } else {
      NowhereFurther(part);
    }
  }

  lemma NowhereFurther(part: string)
    ensures forall i: nat :: StandsAt([], part, i) ==> i == 0
  {}

  lemma {:induction false} FirstSpaceAt(p: string, rest: string)
    requires ' ' !in p && (rest == [] || rest[0] == ' ')
    ensures FirstSpace(p + rest) == |p|
  {
    if p == [] {
      assert p + rest == rest;
    } else {
      assert (p + rest)[1..] == p[1..] + rest;
      FirstSpaceAt(p[1..], rest);
    }
  }

  /** An item is its property, up to the first space if there is one, and falls exactly if " desc"
      stands somewhere in it. */
  lemma ParseKeyMeans(p: string, rest: string)
    requires ' ' !in p && (rest == [] || rest[0] == ' ')
    ensures ParseKey(p + rest).property == p
    ensures ParseKey(p + rest).descending <==> exists i :: StandsAt(p + rest, " desc", i)
  {
    FirstSpaceAt(p, rest);
    ContainsIff(p + rest, " desc");
  }

  /** The three forms that the options have. */
  lemma ParseKeyForms(p: string)
    requires ' ' !in p
    ensures ParseKey(p) == ParseKey(p + " asc") == Key(p, false) && ParseKey(p + " desc") == Key(p, true)
  {
    assert p + [] == p;
    ParseKeyMeans(p, []);
    ParseKeyMeans(p, " asc");
    ParseKeyMeans(p, " desc");
    assert StandsAt(p + " desc", " desc", |p|);
    forall i: nat
      ensures !StandsAt(p, " desc", i) && !StandsAt(p + " asc", " desc", i)
    {
      if i + 5 <= |p| {
        assert p[i..i + 5][0] == p[i] != ' ';
      }
      if i + 5 <= |p + " asc"| {
        assert (p + " asc")[i..i + 5][0] == p[i] != ' ';
      }
    }
  }

  // ---------------------------------------------------------------- comparing

  /** `strcmp`, as a sign. */
  function CompareText(a: seq<nat>, b: seq<nat>): int {
    if a == [] then (if b == [] then 0 else -1)
    else if b == [] then 1
    else if a[0] < b[0] then -1
    else if a[0] > b[0] then 1
    else CompareText(a[1..], b[1..])
  }

  function CompareScalar(a: Scalar, b: Scalar): int {
    match (a, b)
    case (Number(x), Number(y)) => if x < y then -1 else if x > y then 1 else 0
    case (Text(x), Text(y)) => CompareText(x, y)
    case _ => 0
  }

  /** `compare_entities`: a missing property, or values of different types, compare equal. */
  function CompareByKey(a: Entity, b: Entity, key: Key): int {
    if key.property !in a || key.property !in b then 0
    else
      var c := CompareScalar(a[key.property], b[key.property]);
      if key.descending then -c else c
  }

  /** The first key that tells the two apart decides. */
  function Compare(a: Entity, b: Entity, keys: seq<Key>): int {
    if keys == [] then 0
    else
      var c := CompareByKey(a, b, keys[0]);
      if c != 0 then c else Compare(a, b, keys[1..])
  }

  predicate OutOfOrder(a: Entity, b: Entity, keys: seq<Key>) {
    Compare(a, b, keys) > 0
  }

  // ---------------------------------------------------------------- the comparison is a total preorder

  /** The entities have, under this key, all numbers, or all strings, or nothing that compares. */
  ghost predicate ComparableBy(es: set<Entity>, key: Key) {
    || (forall e: Entity :: e in es ==> key.property !in e || e[key.property].Other?)
    || (forall e: Entity :: e in es ==> key.property in e && e[key.property].Number?)
    || (forall e: Entity :: e in es ==> key.property in e && e[key.property].Text?)
  }

  ghost predicate Comparable(es: set<Entity>, keys: seq<Key>) {
    forall key :: key in keys ==> ComparableBy(es, key)
  }

  predicate TransitiveAt(a: Entity, b: Entity, c: Entity, keys: seq<Key>) {
    Compare(a, b, keys) <= 0 && Compare(b, c, keys) <= 0 ==> Compare(a, c, keys) <= 0
  }

  /** The comparison orders these entities. */
  ghost predicate Preordered(es: set<Entity>, keys: seq<Key>) {
    forall a, b, c :: a in es && b in es && c in es ==> TransitiveAt(a, b, c, keys)
  }

  lemma {:induction false} CompareTextFlips(a: seq<nat>, b: seq<nat>)
    ensures CompareText(b, a) == -CompareText(a, b)
    ensures CompareText(a, b) == 0 <==> a == b
    ensures -1 <= CompareText(a, b) <= 1
    decreases |a|
  {
    if a != [] && b != [] {
      CompareTextFlips(a[1..], b[1..]);
      assert a == [a[0]] + a[1..] && b == [b[0]] + b[1..];
    }
  }

  lemma {:induction false} CompareTextTransitive(a: seq<nat>, b: seq<nat>, c: seq<nat>)
    requires CompareText(a, b) <= 0 && CompareText(b, c) <= 0
    ensures CompareText(a, c) <= 0
    decreases |a|
  {
    if a != [] && b != [] && c != [] && a[0] == b[0] == c[0] {
      CompareTextTransitive(a[1..], b[1..], c[1..]);
    }
  }

  lemma KeyFlips(a: Entity, b: Entity, key: Key)
    ensures CompareByKey(b, a, key) == -CompareByKey(a, b, key)
  {
    if key.property in a && key.property in b && a[key.property].Text? && b[key.property].Text? {
      CompareTextFlips(a[key.property].s, b[key.property].s);
    }
  }

  lemma KeyTransitive(a: Entity, b: Entity, c: Entity, key: Key)
    requires ComparableBy({a, b, c}, key)
    requires CompareByKey(a, b, key) <= 0 && CompareByKey(b, c, key) <= 0
    ensures CompareByKey(a, c, key) <= 0
    ensures CompareByKey(a, c, key) == 0 ==> CompareByKey(a, b, key) == 0 && CompareByKey(b, c, key) == 0
  {
    var p := key.property;
    assert a in {a, b, c} && b in {a, b, c} && c in {a, b, c};
    if p in a && p in b && p in c && a[p].Text? && b[p].Text? && c[p].Text? {
      var x, y, z := a[p].s, b[p].s, c[p].s;
      CompareTextFlips(x, y);
      CompareTextFlips(y, z);
      CompareTextFlips(x, z);
      if key.descending {
        CompareTextTransitive(z, y, x);
      } else {
        CompareTextTransitive(x, y, z);
      }
    }
  }

  /** Swapping the arguments flips the sign, whatever the entities. */
  lemma {:induction false} CompareFlips(a: Entity, b: Entity, keys: seq<Key>)
    ensures Compare(b, a, keys) == -Compare(a, b, keys)
    decreases |keys|
  {
    if keys != [] {
      KeyFlips(a, b, keys[0]);
      CompareFlips(a, b, keys[1..]);
    }
  }

  /** On comparable entities the order is transitive, and so is being equal under it. */
  lemma {:induction false} CompareTransitive(a: Entity, b: Entity, c: Entity, keys: seq<Key>)
    requires Comparable({a, b, c}, keys)
    requires Compare(a, b, keys) <= 0 && Compare(b, c, keys) <= 0
    ensures Compare(a, c, keys) <= 0
    ensures Compare(a, c, keys) == 0 ==> Compare(a, b, keys) == 0 && Compare(b, c, keys) == 0
    decreases |keys|
  {
    if keys != [] {
      var k := keys[0];
      assert k in keys;
      KeyTransitive(a, b, c, k);
      if CompareByKey(a, b, k) == 0 && CompareByKey(b, c, k) == 0 {
        KeyFlips(a, b, k);
        KeyFlips(b, c, k);
        KeyFlips(a, c, k);
        KeyTransitive(c, b, a, k) by { assert {c, b, a} == {a, b, c}; }
        CompareTransitive(a, b, c, keys[1..]);
      }
    }
  }

  lemma Triple(es: set<Entity>, keys: seq<Key>, a: Entity, b: Entity, c: Entity)
    requires Comparable(es, keys) && a in es && b in es && c in es
    ensures Comparable({a, b, c}, keys)
  {
    forall key | key in keys
      ensures ComparableBy({a, b, c}, key)
    {
      assert ComparableBy(es, key);
    }
  }

  /** Numbers or strings throughout are enough to be ordered. */
  lemma ComparableIsPreordered(es: set<Entity>, keys: seq<Key>)
    requires Comparable(es, keys)
    ensures Preordered(es, keys)
  {
    hide Compare;
    forall a, b, c | a in es && b in es && c in es
      ensures TransitiveAt(a, b, c, keys)
    {
      if Compare(a, b, keys) <= 0 && Compare(b, c, keys) <= 0 {
        Triple(es, keys, a, b, c);
        CompareTransitive(a, b, c, keys);
      }
    }
  }

  /** In an ordered set being equal is transitive as well. */
  lemma PreorderTransitive(es: set<Entity>, a: Entity, b: Entity, c: Entity, keys: seq<Key>)
    requires Preordered(es, keys) && a in es && b in es && c in es
    requires Compare(a, b, keys) <= 0 && Compare(b, c, keys) <= 0
    ensures Compare(a, c, keys) <= 0
    ensures Compare(a, c, keys) == 0 ==> Compare(a, b, keys) == 0 && Compare(b, c, keys) == 0
  {
    hide Compare;
    assert TransitiveAt(a, b, c, keys) && TransitiveAt(b, c, a, keys) && TransitiveAt(c, a, b, keys);
    CompareFlips(a, b, keys);
    CompareFlips(b, c, keys);
    CompareFlips(a, c, keys);
  }

  /** Without comparability transitivity fails: 2 <= "x" <= 1, but 2 > 1. */
  lemma MixedTypesAreNotOrdered()
    ensures exists a: Entity, b: Entity, c: Entity, keys: seq<Key> ::
              Compare(a, b, keys) <= 0 && Compare(b, c, keys) <= 0 && Compare(a, c, keys) > 0
  {
    var a, b, c: Entity := map["p" := Number(2.0)], map["p" := Text([120])], map["p" := Number(1.0)];
    var keys := [Key("p", false)];
    assert keys[1..] == [];
    assert Compare(a, b, keys) == 0 && Compare(b, c, keys) == 0 && Compare(a, c, keys) == 1;
  }

  // ---------------------------------------------------------------- bubble sort as a function

  /** The element at `j` and its right neighbour, exchanged if out of order. */
  function Bubbled(s: seq<Entity>, j: nat, keys: seq<Key>): (t: seq<Entity>)
    requires j + 1 < |s|
    ensures |t| == |s|
  {
    if OutOfOrder(s[j], s[j + 1], keys) then s[j := s[j + 1]][j + 1 := s[j]] else s
  }

  function Pass(s: seq<Entity>, j: nat, end: nat, keys: seq<Key>): (t: seq<Entity>)
    requires end < |s|
    ensures |t| == |s|
    decreases end - j
  {
    if j >= end then s else Pass(Bubbled(s, j, keys), j + 1, end, keys)
  }

  function Passes(s: seq<Entity>, i: nat, keys: seq<Key>): (t: seq<Entity>)
    ensures |t| == |s|
    decreases |s| - i
  {
    if i + 1 >= |s| then s else Passes(Pass(s, 0, |s| - i - 1, keys), i + 1, keys)
  }

  function OrderBy(s: seq<Entity>, keys: seq<Key>): (t: seq<Entity>)
    ensures |t| == |s|
  {
    Passes(s, 0, keys)
  }

  /** Whatever the entities and keys, sorting only rearranges. */
  lemma {:induction false} PassPermutes(s: seq<Entity>, j: nat, end: nat, keys: seq<Key>)
    requires end < |s|
    ensures multiset(Pass(s, j, end, keys)[..end + 1]) == multiset(s[..end + 1])
    ensures Pass(s, j, end, keys)[end + 1..] == s[end + 1..]
    decreases end - j
  {
    if j < end {
      BubbledPermutes(s, j, end, keys);
      PassPermutes(Bubbled(s, j, keys), j + 1, end, keys);
    }
  }

  lemma BubbledPermutes(s: seq<Entity>, j: nat, end: nat, keys: seq<Key>)
    requires j < end < |s|
    ensures multiset(Bubbled(s, j, keys)[..end + 1]) == multiset(s[..end + 1])
    ensures Bubbled(s, j, keys)[end + 1..] == s[end + 1..]
  {
    var x, y := s[j], s[j + 1];
    var front, back := s[..j], s[j + 2..end + 1];
    var t := s[j := y][j + 1 := x];
    assert s[..end + 1] == front + [x, y] + back;
    assert t[..end + 1] == front + [y, x] + back;
    assert multiset([x, y]) == multiset([y, x]);
    assert t[end + 1..] == s[end + 1..];
  }

  lemma PassPermutesAll(s: seq<Entity>, end: nat, keys: seq<Key>)
    requires end < |s|
    ensures multiset(Pass(s, 0, end, keys)) == multiset(s)
  {
    PassPermutes(s, 0, end, keys);
    var t := Pass(s, 0, end, keys);
    assert t == t[..end + 1] + t[end + 1..] && s == s[..end + 1] + s[end + 1..];
  }

  lemma {:induction false} PassesPermute(s: seq<Entity>, i: nat, keys: seq<Key>)
    ensures multiset(Passes(s, i, keys)) == multiset(s)
    decreases |s| - i
  {
    if i + 1 < |s| {
      PassPermutesAll(s, |s| - i - 1, keys);
      PassesPermute(Pass(s, 0, |s| - i - 1, keys), i + 1, keys);
    }
  }

  lemma OrderByPermutes(s: seq<Entity>, keys: seq<Key>)
    ensures multiset(OrderBy(s, keys)) == multiset(s)
  {
    PassesPermute(s, 0, keys);
  }

  // ---------------------------------------------------------------- stable sorting

  function Elements(s: seq<Entity>): set<Entity> {
    set e | e in s
  }

  ghost predicate Sorted(s: seq<Entity>, keys: seq<Key>) {
    forall i, j :: 0 <= i < j < |s| ==> Compare(s[i], s[j], keys) <= 0
  }

  /** The elements that compare equal to `e`, in their order. */
  function Peers(s: seq<Entity>, e: Entity, keys: seq<Key>): (t: seq<Entity>)
    ensures |t| <= |s|
  {
    if s == [] then []
    else if Compare(s[0], e, keys) == 0 then [s[0]] + Peers(s[1..], e, keys)
    else Peers(s[1..], e, keys)
  }

  /** `t` is `s` sorted, with elements that compare equal left in their order. */
  ghost predicate IsStableSort(t: seq<Entity>, s: seq<Entity>, keys: seq<Key>) {
    && multiset(t) == multiset(s)
    && Sorted(t, keys)
    && forall e :: e in s ==> Peers(t, e, keys) == Peers(s, e, keys)
  }

  lemma SameElements(s: seq<Entity>, t: seq<Entity>)
    requires multiset(s) == multiset(t)
    ensures Elements(s) == Elements(t)
  {
    assert forall e :: e in s <==> e in multiset(s);
    assert forall e :: e in t <==> e in multiset(t);
  }

  lemma {:induction false} PeersConcat(s: seq<Entity>, t: seq<Entity>, e: Entity, keys: seq<Key>)
    ensures Peers(s + t, e, keys) == Peers(s, e, keys) + Peers(t, e, keys)
    decreases |s|
  {
    hide Compare;
    if s == [] {
      assert s + t == t;
    } else {
      assert (s + t)[1..] == s[1..] + t;
      PeersConcat(s[1..], t, e, keys);
    }
  }

  lemma BubbledKeepsPeers(s: seq<Entity>, j: nat, e: Entity, keys: seq<Key>)
    requires j + 1 < |s| && e in s && Preordered(Elements(s), keys)
    ensures Peers(Bubbled(s, j, keys), e, keys) == Peers(s, e, keys)
  {
    hide Compare, Peers, Preordered, Elements, Bubbled;
    var x, y := s[j], s[j + 1];
    if OutOfOrder(x, y, keys) {
      var front, back := s[..j], s[j + 2..];
      BubbledSplits(s, j, keys);
      NotBothPeers(s, x, y, e, keys);
      PairPeers(x, y, e, keys);
      PeersConcat([x, y], back, e, keys);
      PeersConcat([y, x], back, e, keys);
      PeersConcat(front, [x, y] + back, e, keys);
      PeersConcat(front, [y, x] + back, e, keys);
    } else {
      InOrderStays(s, j, keys);
    }
  }

  lemma InOrderStays(s: seq<Entity>, j: nat, keys: seq<Key>)
    requires j + 1 < |s| && !OutOfOrder(s[j], s[j + 1], keys)
    ensures Bubbled(s, j, keys) == s
  {
  }

  lemma BubbledSplits(s: seq<Entity>, j: nat, keys: seq<Key>)
    requires j + 1 < |s| && OutOfOrder(s[j], s[j + 1], keys)
    ensures s == s[..j] + ([s[j], s[j + 1]] + s[j + 2..])
    ensures Bubbled(s, j, keys) == s[..j] + ([s[j + 1], s[j]] + s[j + 2..])
  {
    hide Compare;
    Exchanged(s, j);
  }

  lemma Exchanged(s: seq<Entity>, j: nat)
    requires j + 1 < |s|
    ensures s == s[..j] + ([s[j], s[j + 1]] + s[j + 2..])
    ensures s[j := s[j + 1]][j + 1 := s[j]] == s[..j] + ([s[j + 1], s[j]] + s[j + 2..])
  {}

  /** Exchanging two of which at most one is a peer leaves the peers. */
  lemma PairPeers(x: Entity, y: Entity, e: Entity, keys: seq<Key>)
    requires Compare(x, e, keys) != 0 || Compare(y, e, keys) != 0
    ensures Peers([x, y], e, keys) == Peers([y, x], e, keys)
  {
    hide Compare;
    assert [x, y][1..] == [y] && [y, x][1..] == [x] && [x][1..] == [] && [y][1..] == [];
  }

  lemma NotBothPeers(s: seq<Entity>, x: Entity, y: Entity, e: Entity, keys: seq<Key>)
    requires Preordered(Elements(s), keys) && x in s && y in s && e in s
    requires Compare(x, y, keys) != 0
    ensures Compare(x, e, keys) != 0 || Compare(y, e, keys) != 0
  {
    if Compare(x, e, keys) == 0 && Compare(y, e, keys) == 0 {
      CompareFlips(y, e, keys);
      CompareFlips(x, y, keys);
      CompareFlips(x, e, keys);
      PreorderTransitive(Elements(s), x, e, y, keys);
      PreorderTransitive(Elements(s), y, e, x, keys);
    }
  }

  lemma BubbledSameElements(s: seq<Entity>, j: nat, keys: seq<Key>)
    requires j + 1 < |s|
    ensures Elements(Bubbled(s, j, keys)) == Elements(s)
  {
    var b := Bubbled(s, j, keys);
    BubbledPermutes(s, j, |s| - 1, keys);
    assert s[..|s|] == s && b[..|s|] == b;
    SameElements(s, b);
  }

  /** A pass leaves every class of peers in order. */
  lemma {:induction false} PassKeepsPeers(s: seq<Entity>, j: nat, end: nat, e: Entity, keys: seq<Key>)
    requires end < |s| && e in s && Preordered(Elements(s), keys)
    ensures Peers(Pass(s, j, end, keys), e, keys) == Peers(s, e, keys)
    decreases end - j
  {
    if j < end {
      var b := Bubbled(s, j, keys);
      BubbledSameElements(s, j, keys);
      BubbledKeepsPeers(s, j, e, keys);
      assert e in Elements(b);
      PassKeepsPeers(b, j + 1, end, e, keys);
    }
  }

  /** What the first keys say of two entities, all keys do not contradict. */
  lemma {:induction false} PrefixAgrees(a: Entity, b: Entity, lead: seq<Key>, keys: seq<Key>)
    requires lead <= keys
    ensures Compare(a, b, keys) > 0 ==> Compare(a, b, lead) >= 0
    ensures Compare(a, b, keys) <= 0 ==> Compare(a, b, lead) <= 0
    decreases |lead|
  {
    if lead != [] {
      assert lead[1..] <= keys[1..];
      PrefixAgrees(a, b, lead[1..], keys[1..]);
    }
  }

  /** When everything before `j` is no greater than the element there, so it is a place further on
      after a bubble: by any number of the first keys that order the entities. */
  lemma BubbledSinks(s: seq<Entity>, j: nat, lead: seq<Key>, keys: seq<Key>)
    requires j + 1 < |s| && lead <= keys && Preordered(Elements(s), lead)
    requires forall i :: 0 <= i < j ==> Compare(s[i], s[j], lead) <= 0
    ensures forall i :: 0 <= i < j + 1 ==> Compare(Bubbled(s, j, keys)[i], Bubbled(s, j, keys)[j + 1], lead) <= 0
  {
    hide Compare;
    PrefixAgrees(s[j], s[j + 1], lead, keys);
    CompareFlips(s[j], s[j + 1], lead);
    if !OutOfOrder(s[j], s[j + 1], keys) {
      forall i | 0 <= i < j
        ensures Compare(s[i], s[j + 1], lead) <= 0
      {
        PreorderTransitive(Elements(s), s[i], s[j], s[j + 1], lead);
      }
    }
  }

  /** So a pass carries the greatest of the first `end + 1` to index `end`. */
  lemma {:induction false} PassSinksGreatest(s: seq<Entity>, j: nat, end: nat, lead: seq<Key>, keys: seq<Key>)
    requires j <= end < |s| && lead <= keys && Preordered(Elements(s), lead)
    requires forall i :: 0 <= i < j ==> Compare(s[i], s[j], lead) <= 0
    ensures forall i :: 0 <= i < end ==> Compare(Pass(s, j, end, keys)[i], Pass(s, j, end, keys)[end], lead) <= 0
    decreases end - j
  {
    hide Compare, Preordered;
    if j < end {
      var b := Bubbled(s, j, keys);
      BubbledSameElements(s, j, keys);
      BubbledSinks(s, j, lead, keys);
      hide Bubbled;
      PassSinksGreatest(b, j + 1, end, lead, keys);
    }
  }

  /** The last `i` elements stand sorted behind all others. */
  ghost predicate TailSorted(s: seq<Entity>, i: nat, keys: seq<Key>) {
    forall p, q :: 0 <= p < q < |s| && q >= |s| - i ==> Compare(s[p], s[q], keys) <= 0
  }

  lemma PassExtendsTail(s: seq<Entity>, i: nat, lead: seq<Key>, keys: seq<Key>)
    requires i + 1 < |s| && lead <= keys && Preordered(Elements(s), lead) && TailSorted(s, i, lead)
    ensures TailSorted(Pass(s, 0, |s| - i - 1, keys), i + 1, lead)
  {
    hide Compare, Preordered, Pass, Elements;
    var end := |s| - i - 1;
    var t := Pass(s, 0, end, keys);
    PassSinksGreatest(s, 0, end, lead, keys);
    PassPermutes(s, 0, end, keys);
    forall p, q | 0 <= p < q < |t| && q > end
      ensures Compare(t[p], t[q], lead) <= 0
    {
      assert t[q] == t[end + 1..][q - end - 1] == s[q];
      if p <= end {
        assert t[p] in t[..end + 1];
        assert t[p] in multiset(s[..end + 1]);
        var k :| 0 <= k < end + 1 && s[..end + 1][k] == t[p];
        assert s[k] == t[p];
      } else {
        assert t[p] == t[end + 1..][p - end - 1] == s[p];
      }
    }
  }

  lemma {:induction false} PassesSort(s: seq<Entity>, i: nat, lead: seq<Key>, keys: seq<Key>)
    requires lead <= keys && Preordered(Elements(s), lead) && TailSorted(s, i, lead)
    ensures Sorted(Passes(s, i, keys), lead)
    decreases |s| - i
  {
    hide Preordered, Compare;
    if i + 1 < |s| {
      var end := |s| - i - 1;
      PassPermutesAll(s, end, keys);
      SameElements(s, Pass(s, 0, end, keys));
      PassExtendsTail(s, i, lead, keys);
      PassesSort(Pass(s, 0, end, keys), i + 1, lead, keys);
    }
  }

  /** The list comes out sorted by any number of the first keys whose comparison orders the entities,
      whatever the keys behind them do. */
  lemma OrderBySorts(s: seq<Entity>, lead: seq<Key>, keys: seq<Key>)
    requires lead <= keys && Preordered(Elements(s), lead)
    ensures Sorted(OrderBy(s, keys), lead)
  {
    hide Preordered, Compare;
    PassesSort(s, 0, lead, keys);
  }

  lemma {:induction false} PassesKeepPeers(s: seq<Entity>, i: nat, e: Entity, keys: seq<Key>)
    requires Preordered(Elements(s), keys) && e in s
    ensures Peers(Passes(s, i, keys), e, keys) == Peers(s, e, keys)
    decreases |s| - i
  {
    hide Preordered, Compare, Peers;
    if i + 1 < |s| {
      var end := |s| - i - 1;
      PassPermutesAll(s, end, keys);
      SameElements(s, Pass(s, 0, end, keys));
      PassKeepsPeers(s, 0, end, e, keys);
      assert e in Elements(Pass(s, 0, end, keys));
      PassesKeepPeers(Pass(s, 0, end, keys), i + 1, e, keys);
    }
  }

  /** When the comparison orders the entities, `mp_odata_apply_orderby` is a stable sort. */
  lemma OrderByIsStableSort(s: seq<Entity>, keys: seq<Key>)
    requires Preordered(Elements(s), keys)
    ensures IsStableSort(OrderBy(s, keys), s, keys)
  {
    hide Preordered, Compare, Peers, Sorted, Passes;
    OrderByPermutes(s, keys);
    OrderBySorts(s, keys, keys);
    forall e | e in s
      ensures Peers(OrderBy(s, keys), e, keys) == Peers(s, e, keys)
    {
      PassesKeepPeers(s, 0, e, keys);
    }
  }

  // ---------------------------------------------------------------- which way the sort goes

  /** As strings of bytes compare: a proper prefix is before the longer one, and otherwise the first
      byte that differs decides. */
  ghost predicate TextBefore(x: seq<nat>, y: seq<nat>) {
    (x <= y && x != y) || exists k :: 0 <= k < |x| && k < |y| && x[..k] == y[..k] && x[k] < y[k]
  }

  /** Two numbers, the first below the second; or two strings, the first before the second. */
  ghost predicate ValueBefore(x: Scalar, y: Scalar) {
    || (x.Number? && y.Number? && x.n < y.n)
    || (x.Text? && y.Text? && TextBefore(x.s, y.s))
  }

  /** `a` is to stand before `b` by this key alone: the values rise, or fall if it is descending. */
  ghost predicate KeyBefore(a: Entity, b: Entity, key: Key) {
    && key.property in a && key.property in b
    && (!key.descending ==> ValueBefore(a[key.property], b[key.property]))
    && (key.descending ==> ValueBefore(b[key.property], a[key.property]))
  }

  ghost predicate Tied(a: Entity, b: Entity, keys: seq<Key>) {
    forall key :: key in keys ==> !KeyBefore(a, b, key) && !KeyBefore(b, a, key)
  }

  lemma {:induction false} CompareTextMeans(x: seq<nat>, y: seq<nat>)
    ensures CompareText(x, y) < 0 <==> TextBefore(x, y)
    decreases |x|
  {
    if x != [] && y != [] && x[0] == y[0] {
      CompareTextMeans(x[1..], y[1..]);
      assert x == [x[0]] + x[1..] && y == [y[0]] + y[1..];
      TextBeforeTails(x, y);
    } else if x != [] && y != [] {
      assert x[..0] == y[..0];
      FirstBytesDecide(x, y);
    }
  }

  lemma FirstBytesDecide(x: seq<nat>, y: seq<nat>)
    requires x != [] && y != [] && x[0] != y[0]
    ensures TextBefore(x, y) <==> x[0] < y[0]
  {
    forall k | 0 < k < |x| && k < |y|
      ensures x[..k] != y[..k]
    {
      assert x[..k][0] != y[..k][0];
    }
    assert x[..0] == y[..0];
  }

  lemma TextBeforeTails(x: seq<nat>, y: seq<nat>)
    requires x != [] && y != [] && x[0] == y[0]
    ensures TextBefore(x, y) <==> TextBefore(x[1..], y[1..])
  {
    var u, v := x[1..], y[1..];
    assert x == [x[0]] + u && y == [y[0]] + v;
    if k :| 0 <= k < |x| && k < |y| && x[..k] == y[..k] && x[k] < y[k] {
      assert u[..k - 1] == x[..k][1..] && v[..k - 1] == y[..k][1..];
      assert u[k - 1] < v[k - 1];
    }
    if k :| 0 <= k < |u| && k < |v| && u[..k] == v[..k] && u[k] < v[k] {
      assert x[..k + 1] == [x[0]] + u[..k] && y[..k + 1] == [y[0]] + v[..k];
      assert x[k + 1] < y[k + 1];
    }
  }

  lemma KeyMeans(a: Entity, b: Entity, key: Key)
    ensures CompareByKey(a, b, key) > 0 <==> KeyBefore(b, a, key)
    ensures CompareByKey(a, b, key) < 0 <==> KeyBefore(a, b, key)
  {
    var p := key.property;
    hide TextBefore;
    if p in a && p in b && a[p].Text? && b[p].Text? {
      CompareTextMeans(a[p].s, b[p].s);
      CompareTextMeans(b[p].s, a[p].s);
      CompareTextFlips(a[p].s, b[p].s);
    }
  }

  /** The first key by which one is to stand before the other has `b` before `a`. */
  ghost predicate Decides(a: Entity, b: Entity, keys: seq<Key>, k: nat) {
    k < |keys| && Tied(a, b, keys[..k]) && KeyBefore(b, a, keys[k])
  }

  /** Two entities are out of order exactly if by the first key that tells them apart the second is
      to stand before the first, for any entities and keys. */
  lemma {:induction false} OutOfOrderIff(a: Entity, b: Entity, keys: seq<Key>)
    ensures OutOfOrder(a, b, keys) <==> exists k :: Decides(a, b, keys, k)
    decreases |keys|
  {
    hide KeyBefore, CompareByKey;
    if keys != [] {
      var rest := keys[1..];
      KeyMeans(a, b, keys[0]);
      OutOfOrderIff(a, b, rest);
      if KeyBefore(b, a, keys[0]) {
        assert Decides(a, b, keys, 0);
      }
      if k: nat :| Decides(a, b, rest, k) && CompareByKey(a, b, keys[0]) == 0 {
        assert keys[..k + 1] == [keys[0]] + rest[..k];
        assert Decides(a, b, keys, k + 1);
      }
      if k: nat :| Decides(a, b, keys, k) && k > 0 {
        assert keys[..k] == [keys[0]] + rest[..k - 1];
        assert keys[0] in keys[..k];
        assert Decides(a, b, rest, k - 1);
      }
    }
  }

  /** No entity stands in front of one that is to stand before it by the first key that tells the two
      apart. */
  ghost predicate StandsRight(t: seq<Entity>, keys: seq<Key>) {
    forall i, j, k :: 0 <= i < j < |t| && 0 <= k < |keys| && Tied(t[i], t[j], keys[..k]) ==> !KeyBefore(t[j], t[i], keys[k])
  }

  /** By any number of the first keys under which the entities have numbers, or strings, or nothing
      that compares throughout, the list comes out in the direction of each key. */
  lemma OrderByStandsRight(s: seq<Entity>, lead: seq<Key>, keys: seq<Key>)
    requires lead <= keys && Comparable(Elements(s), lead)
    ensures StandsRight(OrderBy(s, keys), lead)
  {
    hide Compare, OrderBy, Tied, KeyBefore, Comparable, Preordered;
    ComparableIsPreordered(Elements(s), lead);
    OrderBySorts(s, lead, keys);
    var t := OrderBy(s, keys);
    forall i, j, k | 0 <= i < j < |t| && 0 <= k < |lead| && Tied(t[i], t[j], lead[..k])
      ensures !KeyBefore(t[j], t[i], lead[k])
    {
      OutOfOrderIff(t[i], t[j], lead);
      assert !Decides(t[i], t[j], lead, k);
    }
  }

  ghost predicate NumbersUnder(s: seq<Entity>, p: string) {
    forall i :: 0 <= i < |s| ==> p in s[i] && s[i][p].Number?
  }

  ghost predicate StringsUnder(s: seq<Entity>, p: string) {
    forall i :: 0 <= i < |s| ==> p in s[i] && s[i][p].Text?
  }

  /** Both lack the property, or both have it with the same value. */
  predicate SameValue(a: Entity, b: Entity, p: string) {
    (p !in a && p !in b) || (p in a && p in b && a[p] == b[p])
  }

  /** The two agree on the properties of these keys. */
  ghost predicate SameUnder(a: Entity, b: Entity, keys: seq<Key>) {
    forall key :: key in keys ==> SameValue(a, b, key.property)
  }

  /** With numbers throughout under key `k`, and something comparable under the keys before it, the
      numbers rise, or fall if the key says so, among entities that agree under the keys before; for
      the first key, throughout the list. */
  lemma NumbersOrdered(s: seq<Entity>, keys: seq<Key>, k: nat, i: nat, j: nat)
    requires k < |keys| && Comparable(Elements(s), keys[..k]) && NumbersUnder(s, keys[k].property)
    requires i < j < |s| && SameUnder(OrderBy(s, keys)[i], OrderBy(s, keys)[j], keys[..k])
    ensures var t, p := OrderBy(s, keys), keys[k].property;
      && p in t[i] && p in t[j] && t[i][p].Number? && t[j][p].Number?
      && (!keys[k].descending ==> t[i][p].n <= t[j][p].n)
      && (keys[k].descending ==> t[i][p].n >= t[j][p].n)
  {
    hide OrderBy, Comparable, SameUnder, Tied;
    var lead, t, p := keys[..k + 1], OrderBy(s, keys), keys[k].property;
    NumbersCompare(s, keys[k]);
    ComparableWithOneMore(Elements(s), keys, k);
    OrderByStandsRight(s, lead, keys);
    SameIsTied(t[i], t[j], keys[..k]);
    assert lead[..k] == keys[..k];
    NumbersMoved(s, t, p) by { OrderByPermutes(s, keys); }
  }

  /** The same for strings. */
  lemma StringsOrdered(s: seq<Entity>, keys: seq<Key>, k: nat, i: nat, j: nat)
    requires k < |keys| && Comparable(Elements(s), keys[..k]) && StringsUnder(s, keys[k].property)
    requires i < j < |s| && SameUnder(OrderBy(s, keys)[i], OrderBy(s, keys)[j], keys[..k])
    ensures var t, p := OrderBy(s, keys), keys[k].property;
      && p in t[i] && p in t[j] && t[i][p].Text? && t[j][p].Text?
      && (!keys[k].descending ==> t[i][p].s == t[j][p].s || TextBefore(t[i][p].s, t[j][p].s))
      && (keys[k].descending ==> t[i][p].s == t[j][p].s || TextBefore(t[j][p].s, t[i][p].s))
  {
    hide OrderBy, Comparable, SameUnder, Tied, TextBefore;
    var lead, t, p := keys[..k + 1], OrderBy(s, keys), keys[k].property;
    NumbersCompare(s, keys[k]);
    ComparableWithOneMore(Elements(s), keys, k);
    OrderByStandsRight(s, lead, keys);
    SameIsTied(t[i], t[j], keys[..k]);
    assert lead[..k] == keys[..k];
    NumbersMoved(s, t, p) by { OrderByPermutes(s, keys); }
    OneTextFirst(t[i][p].s, t[j][p].s);
  }

  lemma OneTextFirst(x: seq<nat>, y: seq<nat>)
    ensures x == y || TextBefore(x, y) || TextBefore(y, x)
  {
    CompareTextMeans(x, y);
    CompareTextMeans(y, x);
    CompareTextFlips(x, y);
  }

  lemma NumbersCompare(s: seq<Entity>, key: Key)
    ensures NumbersUnder(s, key.property) || StringsUnder(s, key.property) ==> ComparableBy(Elements(s), key)
  {}

  lemma ComparableWithOneMore(es: set<Entity>, keys: seq<Key>, k: nat)
    requires k < |keys| && Comparable(es, keys[..k]) && ComparableBy(es, keys[k])
    ensures Comparable(es, keys[..k + 1])
  {
    hide ComparableBy;
    assert keys[..k + 1] == keys[..k] + [keys[k]];
  }

  lemma SameIsTied(a: Entity, b: Entity, keys: seq<Key>)
    requires SameUnder(a, b, keys)
    ensures Tied(a, b, keys)
  {
    forall key | key in keys
      ensures !KeyBefore(a, b, key) && !KeyBefore(b, a, key)
    {
      var p := key.property;
      if p in a && a[p].Text? {
        assert !TextBefore(a[p].s, a[p].s) by {
          CompareTextMeans(a[p].s, a[p].s);
          CompareTextFlips(a[p].s, a[p].s);
        }
      }
    }
  }

  lemma NumbersMoved(s: seq<Entity>, t: seq<Entity>, p: string)
    requires multiset(s) == multiset(t)
    ensures NumbersUnder(s, p) ==> NumbersUnder(t, p)
    ensures StringsUnder(s, p) ==> StringsUnder(t, p)
  {
    forall i | 0 <= i < |t|
      ensures t[i] in s
    {
      assert t[i] in multiset(t);
    }
  }

  /** The list's values under `p` are numbers that never fall, or strings that never do. */
  ghost predicate Rises(t: seq<Entity>, p: string) {
    && (NumbersUnder(t, p) || StringsUnder(t, p))
    && forall i, j :: 0 <= i < j < |t| ==>
         && (t[i][p].Number? ==> t[j][p].Number? && t[i][p].n <= t[j][p].n)
         && (t[i][p].Text? ==> t[j][p].Text? && (t[i][p].s == t[j][p].s || TextBefore(t[i][p].s, t[j][p].s)))
  }

  ghost predicate Falls(t: seq<Entity>, p: string) {
    && (NumbersUnder(t, p) || StringsUnder(t, p))
    && forall i, j :: 0 <= i < j < |t| ==>
         && (t[i][p].Number? ==> t[j][p].Number? && t[i][p].n >= t[j][p].n)
         && (t[i][p].Text? ==> t[j][p].Text? && (t[i][p].s == t[j][p].s || TextBefore(t[j][p].s, t[i][p].s)))
  }

  /** `t` goes as the first $orderby item says, if the values under its property are all numbers or
      all strings: upwards, or downwards with " desc". */
  ghost predicate FollowsFirst(t: seq<Entity>, s: seq<Entity>, orderby: seq<string>) {
    orderby != [] ==> forall p: string :: ' ' !in p && (NumbersUnder(s, p) || StringsUnder(s, p)) ==>
      && (orderby[0] == p || orderby[0] == p + " asc" ==> Rises(t, p))
      && (orderby[0] == p + " desc" ==> Falls(t, p))
  }

  lemma OrderByFollowsFirst(s: seq<Entity>, orderby: seq<string>)
    ensures FollowsFirst(OrderBy(s, ParseKeys(orderby)), s, orderby)
  {
    hide OrderBy;
    var keys := ParseKeys(orderby);
    var t := OrderBy(s, keys);
    forall p: string | orderby != [] && ' ' !in p && (NumbersUnder(s, p) || StringsUnder(s, p))
      ensures orderby[0] == p || orderby[0] == p + " asc" ==> Rises(t, p)
      ensures orderby[0] == p + " desc" ==> Falls(t, p)
    {
      ParseKeyForms(p);
      if keys[0].property == p {
        FirstKeyOrders(s, keys);
      }
    }
  }

  lemma FirstKeyOrders(s: seq<Entity>, keys: seq<Key>)
    requires keys != [] && (NumbersUnder(s, keys[0].property) || StringsUnder(s, keys[0].property))
    ensures if keys[0].descending then Falls(OrderBy(s, keys), keys[0].property) else Rises(OrderBy(s, keys), keys[0].property)
  {
    hide OrderBy, TextBefore;
    var t, p := OrderBy(s, keys), keys[0].property;
    OrderByPermutes(s, keys);
    NumbersMoved(s, t, p);
    forall i, j | 0 <= i < j < |t|
      ensures t[i][p].Number? ==> t[j][p].Number? && (if keys[0].descending then t[i][p].n >= t[j][p].n else t[i][p].n <= t[j][p].n)
      ensures t[i][p].Text? ==> t[j][p].Text?
      ensures t[i][p].Text? && !keys[0].descending ==> t[i][p].s == t[j][p].s || TextBefore(t[i][p].s, t[j][p].s)
      ensures t[i][p].Text? && keys[0].descending ==> t[i][p].s == t[j][p].s || TextBefore(t[j][p].s, t[i][p].s)
    {
      if NumbersUnder(s, p) {
        NumbersOrdered(s, keys, 0, i, j);
      } else {
        StringsOrdered(s, keys, 0, i, j);
      }
    }
  }

  /** By any number of its first keys that have numbers, or strings, or nothing comparable throughout
      `s`, every pair in `t` stands as they say. */
  ghost predicate FollowsLeading(t: seq<Entity>, s: seq<Entity>, orderby: seq<string>) {
    forall m :: 0 <= m <= |orderby| && Comparable(Elements(s), ParseKeys(orderby)[..m]) ==> StandsRight(t, ParseKeys(orderby)[..m])
  }

  lemma OrderByFollowsLeading(s: seq<Entity>, orderby: seq<string>)
    ensures FollowsLeading(OrderBy(s, ParseKeys(orderby)), s, orderby)
  {
    hide Comparable, StandsRight, OrderBy, Elements;
    var keys := ParseKeys(orderby);
    forall m | 0 <= m <= |orderby| && Comparable(Elements(s), keys[..m])
      ensures StandsRight(OrderBy(s, keys), keys[..m])
    {
      OrderByStandsRight(s, keys[..m], keys);
    }
  }

  // ---------------------------------------------------------------- there is only one stable sort

  lemma {:induction false} PeerFound(s: seq<Entity>, e: Entity, keys: seq<Key>) returns (i: nat)
    requires Peers(s, e, keys) != []
    ensures i < |s| && Compare(s[i], e, keys) == 0
  {
    if Compare(s[0], e, keys) == 0 {
      i := 0;
    } else {
      i := PeerFound(s[1..], e, keys);
      i := i + 1;
    }
  }

  /** The head of a sorted list is no greater than the head of any list with the same classes. */
  lemma HeadIsLeast(s: seq<Entity>, t: seq<Entity>, keys: seq<Key>)
    requires s != [] && t != [] && Preordered(Elements(s) + Elements(t), keys)
    requires Sorted(s, keys) && Peers(s, t[0], keys) == Peers(t, t[0], keys)
    ensures Compare(s[0], t[0], keys) <= 0
  {
    CompareFlips(t[0], t[0], keys);
    var i := PeerFound(s, t[0], keys);
    if i > 0 {
      PreorderTransitive(Elements(s) + Elements(t), s[0], s[i], t[0], keys);
    }
  }

  lemma PeersOfTail(s: seq<Entity>, e: Entity, keys: seq<Key>)
    requires s != []
    ensures Compare(s[0], e, keys) == 0 ==> Peers(s, e, keys) != [] && Peers(s[1..], e, keys) == Peers(s, e, keys)[1..]
    ensures Compare(s[0], e, keys) != 0 ==> Peers(s[1..], e, keys) == Peers(s, e, keys)
  {}

  lemma HeadsAgree(s: seq<Entity>, t: seq<Entity>, keys: seq<Key>)
    requires s != [] && t != [] && Preordered(Elements(s) + Elements(t), keys)
    requires Sorted(s, keys) && Sorted(t, keys)
    requires forall e :: e in s || e in t ==> Peers(s, e, keys) == Peers(t, e, keys)
    ensures s[0] == t[0]
  {
    hide Compare, Peers, Preordered, Sorted;
    assert s[0] in s && t[0] in t;
    HeadIsLeast(s, t, keys);
    assert Elements(t) + Elements(s) == Elements(s) + Elements(t);
    HeadIsLeast(t, s, keys);
    CompareFlips(s[0], t[0], keys);
    CompareFlips(s[0], s[0], keys);
    HeadLeadsPeers(s, s[0], keys);
    HeadLeadsPeers(t, s[0], keys);
  }

  lemma HeadLeadsPeers(s: seq<Entity>, e: Entity, keys: seq<Key>)
    requires s != [] && Compare(s[0], e, keys) == 0
    ensures Peers(s, e, keys) != [] && Peers(s, e, keys)[0] == s[0]
  {}

  lemma {:induction false} SortedIsUnique(s: seq<Entity>, t: seq<Entity>, keys: seq<Key>)
    requires Preordered(Elements(s) + Elements(t), keys)
    requires Sorted(s, keys) && Sorted(t, keys)
    requires forall e :: e in s || e in t ==> Peers(s, e, keys) == Peers(t, e, keys)
    ensures s == t
    decreases |s|
  {
    hide Compare, Peers, Preordered, Sorted, Elements;
    if s != [] && t != [] {
      HeadsAgree(s, t, keys);
      TailsAgree(s, t, keys);
      SortedIsUnique(s[1..], t[1..], keys);
      assert s == [s[0]] + s[1..] && t == [t[0]] + t[1..];
    } else if s != [] {
      HeadIsItsPeer(s, keys);
    } else if t != [] {
      HeadIsItsPeer(t, keys);
    }
  }

  lemma TailsAgree(s: seq<Entity>, t: seq<Entity>, keys: seq<Key>)
    requires s != [] && t != [] && s[0] == t[0]
    requires Preordered(Elements(s) + Elements(t), keys) && Sorted(s, keys) && Sorted(t, keys)
    requires forall e :: e in s || e in t ==> Peers(s, e, keys) == Peers(t, e, keys)
    ensures Preordered(Elements(s[1..]) + Elements(t[1..]), keys) && Sorted(s[1..], keys) && Sorted(t[1..], keys)
    ensures forall e :: e in s[1..] || e in t[1..] ==> Peers(s[1..], e, keys) == Peers(t[1..], e, keys)
  {
    hide Compare, Peers, Preordered;
    forall e | e in s[1..] || e in t[1..]
      ensures Peers(s[1..], e, keys) == Peers(t[1..], e, keys)
    {
      assert e in s || e in t;
      PeersOfTail(s, e, keys);
      PeersOfTail(t, e, keys);
    }
    Narrowed(Elements(s) + Elements(t), Elements(s[1..]) + Elements(t[1..]), keys);
  }

  lemma HeadIsItsPeer(s: seq<Entity>, keys: seq<Key>)
    requires s != []
    ensures s[0] in s && |Peers(s, s[0], keys)| > |Peers([], s[0], keys)|
  {
    CompareFlips(s[0], s[0], keys);
  }

  lemma Narrowed(es: set<Entity>, fs: set<Entity>, keys: seq<Key>)
    requires Preordered(es, keys) && fs <= es
    ensures Preordered(fs, keys)
  {
    hide TransitiveAt;
  }

  /** Being a stable sort of `s` pins the list down. */
  lemma StableSortIsOrderBy(t: seq<Entity>, s: seq<Entity>, keys: seq<Key>)
    requires Preordered(Elements(s), keys)
    ensures IsStableSort(t, s, keys) <==> t == OrderBy(s, keys)
  {
    hide Compare, Peers, Preordered, OrderBy, Sorted;
    OrderByIsStableSort(s, keys);
    if IsStableSort(t, s, keys) {
      var u := OrderBy(s, keys);
      SameElements(t, s);
      SameElements(u, s);
      forall e | e in t || e in u
        ensures e in s
      {
        assert e in Elements(t) || e in Elements(u);
      }
      assert Elements(t) + Elements(u) == Elements(s);
      SortedIsUnique(t, u, keys);
    }
  }

  // ---------------------------------------------------------------- filtering

  function Filtered(s: seq<Entity>, keep: Entity -> bool): seq<Entity> {
    if s == [] then []
    else if keep(s[0]) then [s[0]] + Filtered(s[1..], keep)
    else Filtered(s[1..], keep)
  }

  lemma {:induction false} FilteredConcat(s: seq<Entity>, t: seq<Entity>, keep: Entity -> bool)
    ensures Filtered(s + t, keep) == Filtered(s, keep) + Filtered(t, keep)
    decreases |s|
  {
    if s == [] {
      assert s + t == t;
    } else {
      assert (s + t)[1..] == s[1..] + t;
      FilteredConcat(s[1..], t, keep);
    }
  }

  lemma {:induction false} FilteredPeers(s: seq<Entity>, keep: Entity -> bool, e: Entity, keys: seq<Key>)
    ensures Peers(Filtered(s, keep), e, keys) == Filtered(Peers(s, e, keys), keep)
    decreases |s|
  {
    if s != [] {
      var kept, peer := Filtered(s[1..], keep), Peers(s[1..], e, keys);
      FilteredPeers(s[1..], keep, e, keys);
      if keep(s[0]) {
        assert Filtered(s, keep)[0] == s[0] && Filtered(s, keep)[1..] == kept;
      } else {
        assert Filtered(s, keep) == kept;
      }
      if Compare(s[0], e, keys) == 0 {
        assert Peers(s, e, keys)[0] == s[0] && Peers(s, e, keys)[1..] == peer;
      } else {
        assert Peers(s, e, keys) == peer;
      }
    }
  }

  lemma {:induction false} FilteredSorted(s: seq<Entity>, keep: Entity -> bool, keys: seq<Key>)
    requires Sorted(s, keys)
    ensures Sorted(Filtered(s, keep), keys)
    ensures forall e :: e in Filtered(s, keep) <==> e in s && keep(e)
    decreases |s|
  {
    hide Compare;
    if s != [] {
      FilteredSorted(s[1..], keep, keys);
      var t := Filtered(s[1..], keep);
      forall e | e in t
        ensures Compare(s[0], e, keys) <= 0
      {
        assert e in s[1..];
        var k :| 0 <= k < |s[1..]| && s[1..][k] == e;
        assert s[k + 1] == e;
      }
      assert s == [s[0]] + s[1..];
    }
  }

  lemma {:induction false} FilteredElements(s: seq<Entity>, keep: Entity -> bool)
    ensures forall e :: e in Filtered(s, keep) <==> e in s && keep(e)
    ensures |Filtered(s, keep)| <= |s|
  {
    if s != [] {
      FilteredElements(s[1..], keep);
      assert s == [s[0]] + s[1..];
    }
  }

  lemma {:induction false} FilteredMultiset(s: seq<Entity>, keep: Entity -> bool, e: Entity)
    ensures multiset(Filtered(s, keep))[e] == if keep(e) then multiset(s)[e] else 0
  {
    if s != [] {
      assert s == [s[0]] + s[1..];
      FilteredMultiset(s[1..], keep, e);
    }
  }

  /** $filter and $orderby may be applied in either order. */
  lemma FilterAndOrderCommute(s: seq<Entity>, keep: Entity -> bool, keys: seq<Key>)
    requires Preordered(Elements(s), keys)
    ensures OrderBy(Filtered(s, keep), keys) == Filtered(OrderBy(s, keys), keep)
  {
    hide Compare, Peers, Preordered, Sorted, OrderBy, Filtered;
    var f, t := Filtered(s, keep), OrderBy(s, keys);
    OrderByIsStableSort(s, keys);
    FilteredSorted(t, keep, keys);
    FilteredElements(s, keep);
    Narrowed(Elements(s), Elements(f), keys);
    forall e
      ensures multiset(Filtered(t, keep))[e] == multiset(f)[e]
    {
      FilteredMultiset(t, keep, e);
      FilteredMultiset(s, keep, e);
    }
    forall e | e in f
      ensures Peers(Filtered(t, keep), e, keys) == Peers(f, e, keys)
    {
      FilteredPeers(t, keep, e, keys);
      FilteredPeers(s, keep, e, keys);
    }
    StableSortIsOrderBy(Filtered(t, keep), f, keys);
  }

  ghost predicate Commute(s: seq<Entity>, keep: Entity -> bool, keys: seq<Key>) {
    OrderBy(Filtered(s, keep), keys) == Filtered(OrderBy(s, keys), keep)
  }

  /** Three entities of which each is no greater than the next, but the first greater than the
      last: the sort leaves them alone, and changes the outer two without the one between. */
  lemma StuckTriple(a: Entity, b: Entity, c: Entity, keys: seq<Key>)
    requires !TransitiveAt(a, b, c, keys)
    ensures OrderBy([a, b, c], keys) == [a, b, c]
    ensures OrderBy([a, c], keys) == [c, a]
    ensures a != c && b != a && b != c
  {
    hide Compare;
    CompareFlips(a, a, keys);
    var s := [a, b, c];
    assert Pass(s, 0, 2, keys) == s && Pass(s, 0, 1, keys) == s;
    assert Passes(s, 2, keys) == s && Passes(s, 1, keys) == s;
    assert Bubbled([a, c], 0, keys) == [c, a];
    assert Pass([a, c], 0, 1, keys) == [c, a];
    assert Passes([c, a], 1, keys) == [c, a];
  }

  lemma StuckTripleDoesNotCommute(a: Entity, b: Entity, c: Entity, keys: seq<Key>)
    requires !TransitiveAt(a, b, c, keys)
    ensures !Commute([a, b, c], e => e != b, keys)
  {
    hide OrderBy, TransitiveAt;
    StuckTriple(a, b, c, keys);
    var keep, s := (e: Entity) => e != b, [a, b, c];
    assert s[1..] == [b, c] && [b, c][1..] == [c] && [c][1..] == [];
    assert Filtered([c], keep) == [c] && Filtered([b, c], keep) == [c];
    assert Filtered(s, keep) == [a, c];
    assert [c, a][0] != [a, c][0];
  }

  /** $filter and $orderby may be applied in either order on all lists of these entities, whatever
      the filter, exactly if the comparison orders the entities. */
  lemma CommuteIff(es: set<Entity>, keys: seq<Key>)
    ensures Preordered(es, keys)
       <==> forall s: seq<Entity>, keep: Entity -> bool :: Elements(s) <= es ==> Commute(s, keep, keys)
  {
    hide OrderBy, Filtered, TransitiveAt;
    if Preordered(es, keys) {
      forall s: seq<Entity>, keep: Entity -> bool | Elements(s) <= es
        ensures Commute(s, keep, keys)
      {
        Narrowed(es, Elements(s), keys);
        FilterAndOrderCommute(s, keep, keys);
      }
    } else {
      var a, b, c :| a in es && b in es && c in es && !TransitiveAt(a, b, c, keys);
      StuckTripleDoesNotCommute(a, b, c, keys);
      assert Elements([a, b, c]) <= es;
    }
  }

  /** And the bubble sort sorts all lists of these entities exactly under the same condition. */
  lemma SortsIff(es: set<Entity>, keys: seq<Key>)
    ensures Preordered(es, keys)
       <==> forall s: seq<Entity> :: Elements(s) <= es ==> Sorted(OrderBy(s, keys), keys)
  {
    hide OrderBy, Compare;
    if Preordered(es, keys) {
      forall s: seq<Entity> | Elements(s) <= es
        ensures Sorted(OrderBy(s, keys), keys)
      {
        Narrowed(es, Elements(s), keys);
        OrderByIsStableSort(s, keys);
      }
    } else {
      var a, b, c :| a in es && b in es && c in es && !TransitiveAt(a, b, c, keys);
      StuckTriple(a, b, c, keys);
      var s := [a, b, c];
      assert Elements(s) <= es;
      assert Compare(s[0], s[2], keys) > 0;
      assert !Sorted(s, keys);
    }
  }

  /** With numbers, strings or nothing to compare throughout, under each key, they commute. */
  lemma ComparableCommute(s: seq<Entity>, keep: Entity -> bool, keys: seq<Key>)
    requires Comparable(Elements(s), keys)
    ensures Commute(s, keep, keys)
  {
    ComparableIsPreordered(Elements(s), keys);
    FilterAndOrderCommute(s, keep, keys);
  }

  /** With mixed types they need not: `[2, "x", 1]` is left alone by the sort, since the string equals
      both its neighbours, and filtering the string out first lets 2 and 1 change places. */
  lemma MixedTypesDoNotCommute()
    ensures exists s: seq<Entity>, keep: Entity -> bool, keys: seq<Key> :: !Commute(s, keep, keys)
  {
    var a, b, c: Entity := map["p" := Number(2.0)], map["p" := Text([120])], map["p" := Number(1.0)];
    var keys := [Key("p", false)];
    assert keys[1..] == [];
    assert Compare(a, b, keys) == 0 && Compare(b, c, keys) == 0 && Compare(a, c, keys) == 1;
    StuckTripleDoesNotCommute(a, b, c, keys);
  }

  // ---------------------------------------------------------------- paging

  /** `mp_odata_apply_paging`: a negative skip, cast to an unsigned size, is past every list; a
      top of zero or less takes everything that is left. */
  function Paged(s: seq<Entity>, top: int, skip: int): seq<Entity> {
    if skip < 0 || skip >= |s| then []
    else if top > 0 && skip + top < |s| then s[skip..skip + top]
    else s[skip..]
  }

  /** What $top and $skip are to select: past the first `skip` entities, the first `top`. */
  function Selection(s: seq<Entity>, top: nat, skip: nat): seq<Entity> {
    var rest := if skip < |s| then s[skip..] else [];
    if top < |rest| then rest[..top] else rest
  }

  /** The code selects that exactly if $top is positive or nothing is left to take. */
  lemma PagedIsSelectionIff(s: seq<Entity>, top: nat, skip: nat)
    ensures Paged(s, top, skip) == Selection(s, top, skip) <==> top > 0 || skip >= |s|
  {
    if skip < |s| {
      assert s[skip..] != [];
      if top < |s[skip..]| {
        assert s[skip..][..top] == s[skip..skip + top];
      }
    }
  }

  /** A $top of zero takes everything that is left, and a negative $skip leaves nothing. */
  lemma PagedAtTheEdges(s: seq<Entity>, top: int, skip: int)
    ensures top <= 0 && 0 <= skip <= |s| ==> Paged(s, top, skip) == s[skip..]
    ensures Paged(s, top, skip) == [] <==> skip < 0 || skip >= |s|
  {
  }

  /** The pages of size `n` from `skip` on, laid end to end. */
  function PagesFrom(s: seq<Entity>, n: nat, skip: nat): seq<Entity>
    requires n > 0
    decreases |s| - skip
  {
    if skip >= |s| then [] else Paged(s, n, skip) + PagesFrom(s, n, skip + n)
  }

  /** Pages of any size tile the list: nothing is lost and nothing repeated. */
  lemma {:induction false} PagesTile(s: seq<Entity>, n: nat, skip: nat)
    requires n > 0 && skip <= |s|
    ensures PagesFrom(s, n, skip) == s[skip..]
    decreases |s| - skip
  {
    if skip + n <= |s| {
      PagesTile(s, n, skip + n);
      assert s[skip..] == s[skip..skip + n] + s[skip + n..];
    } else if skip < |s| {
      assert PagesFrom(s, n, skip + n) == [];
    }
  }

  lemma PageStep(s: seq<Entity>, n: nat, skip: nat)
    requires n > 0
    ensures Paged(s, n, skip) == [] <==> skip >= |s|
    ensures PagesFrom(s, n, skip) == if skip >= |s| then [] else Paged(s, n, skip) + PagesFrom(s, n, skip + n)
  {}

  // ---------------------------------------------------------------- the pipeline

  datatype Option<T> = None | Some(value: T)

  /** `filter` is `evaluate_filter` applied to the option's text; `paged` says that $top or $skip
      was given. */
  datatype Query = Query(filter: Option<Entity -> bool>, orderby: seq<string>, paged: bool, top: int, skip: int)

  function ParseKeys(orders: seq<string>): (keys: seq<Key>)
    ensures |keys| == |orders|
    ensures forall i :: 0 <= i < |orders| ==> keys[i] == ParseKey(orders[i])
  {
    seq(|orders|, i requires 0 <= i < |orders| => ParseKey(orders[i]))
  }

  function Selected(s: seq<Entity>, q: Query): seq<Entity> {
    if q.filter.Some? then Filtered(s, q.filter.value) else s
  }

  function Ordered(s: seq<Entity>, q: Query): seq<Entity> {
    OrderBy(Selected(s, q), ParseKeys(q.orderby))
  }

  function Response(s: seq<Entity>, q: Query): seq<Entity> {
    if q.paged then Paged(Ordered(s, q), q.top, q.skip) else Ordered(s, q)
  }

  /** The whole response: every entity that passes as often as it is there, and no other. */
  ghost predicate AllThatPass(r: seq<Entity>, s: seq<Entity>, q: Query) {
    forall e :: multiset(r)[e] == if q.filter.None? || q.filter.value(e) then multiset(s)[e] else 0
  }

  /** The page: from entity `skip` of the whole response on, `top` of them if there are so many, all of
      them for a `top` of zero or less. */
  ghost predicate IsPage(page: seq<Entity>, r: seq<Entity>, top: int, skip: int) {
    if 0 <= skip < |r| then
      && |page| == (if 0 < top < |r| - skip then top else |r| - skip)
      && forall i :: 0 <= i < |page| ==> page[i] == r[skip + i]
    else page == []
  }

  lemma WholeResponse(s: seq<Entity>, q: Query)
    requires !q.paged
    ensures AllThatPass(Response(s, q), s, q)
    ensures FollowsFirst(Response(s, q), Selected(s, q), q.orderby)
    ensures FollowsLeading(Response(s, q), Selected(s, q), q.orderby)
  {
    hide OrderBy, Filtered, FollowsFirst, FollowsLeading;
    var f := Selected(s, q);
    OrderByPermutes(f, ParseKeys(q.orderby));
    OrderByFollowsFirst(f, q.orderby);
    OrderByFollowsLeading(f, q.orderby);
    forall e
      ensures multiset(f)[e] == if q.filter.None? || q.filter.value(e) then multiset(s)[e] else 0
    {
      if q.filter.Some? {
        FilteredMultiset(s, q.filter.value, e);
      }
    }
  }

  /** With $top or $skip the response is a page of the one without, in the same order. */
  lemma PagedResponse(s: seq<Entity>, q: Query)
    requires q.paged
    ensures IsPage(Response(s, q), Response(s, q.(paged := false)), q.top, q.skip)
    ensures FollowsFirst(Response(s, q), Selected(s, q), q.orderby)
    ensures FollowsLeading(Response(s, q), Selected(s, q), q.orderby)
  {
    hide OrderBy, Filtered, FollowsFirst, FollowsLeading;
    var whole := q.(paged := false);
    WholeResponse(s, whole);
    var r, page := Response(s, whole), Response(s, q);
    assert Selected(s, whole) == Selected(s, q);
    PageFollows(r, page, Selected(s, q), q.orderby, q.top, q.skip);
  }

  lemma PageFollows(r: seq<Entity>, page: seq<Entity>, s: seq<Entity>, orderby: seq<string>, top: int, skip: int)
    requires IsPage(page, r, top, skip) && FollowsFirst(r, s, orderby) && FollowsLeading(r, s, orderby)
    ensures FollowsFirst(page, s, orderby) && FollowsLeading(page, s, orderby)
  {
    var from := if page == [] then |r| else skip;
    assert forall i :: 0 <= i < |page| ==> page[i] == r[from + i];
    forall p: string
      ensures Rises(r, p) ==> Rises(page, p)
      ensures Falls(r, p) ==> Falls(page, p)
    {
      PageGoesOn(r, page, p, from);
    }
    forall keys | StandsRight(r, keys)
      ensures StandsRight(page, keys)
    {
      PageStands(r, page, keys, from);
    }
  }

  lemma PageGoesOn(r: seq<Entity>, page: seq<Entity>, p: string, from: nat)
    requires from + |page| <= |r| && forall i :: 0 <= i < |page| ==> page[i] == r[from + i]
    ensures Rises(r, p) ==> Rises(page, p)
    ensures Falls(r, p) ==> Falls(page, p)
  {
    hide TextBefore;
  }

  lemma PageStands(r: seq<Entity>, page: seq<Entity>, keys: seq<Key>, from: nat)
    requires from + |page| <= |r| && forall i :: 0 <= i < |page| ==> page[i] == r[from + i]
    requires StandsRight(r, keys)
    ensures StandsRight(page, keys)
  {
    hide Tied, KeyBefore;
  }

  /** With no keys nothing is out of order. */
  lemma {:induction false} NoKeysNoChange(s: seq<Entity>, i: nat)
    ensures Passes(s, i, []) == s
    decreases |s| - i
  {
    if i + 1 < |s| {
      NoKeysPass(s, 0, |s| - i - 1);
      NoKeysNoChange(s, i + 1);
    }
  }

  lemma {:induction false} NoKeysPass(s: seq<Entity>, j: nat, end: nat)
    requires end < |s|
    ensures Pass(s, j, end, []) == s
    decreases end - j
  {
    if j < end {
      NoKeysPass(s, j + 1, end);
    }
  }

  /** The early return leaves the list empty-handed too: it fails and changes nothing. */
  method ApplyFilter(entities: array<Entity>, count: nat, keep: Entity -> bool)
    returns (ok: bool, filtered: array<Entity>, filteredCount: nat)
    requires count <= entities.Length
    ensures ok <==> count > 0
    ensures ok ==> fresh(filtered) && filteredCount <= filtered.Length
    ensures ok ==> filtered[..filteredCount] == Filtered(entities[..count], keep)
    ensures !ok ==> filtered == entities && filteredCount == count
  {
    if count == 0 {
      return false, entities, count;
    }
    filtered := new Entity[count];
    filteredCount := 0;
    for i := 0 to count
      invariant filteredCount <= i
      invariant filtered[..filteredCount] == Filtered(entities[..i], keep)
    {
      FilteredConcat(entities[..i], [entities[i]], keep);
      assert entities[..i + 1] == entities[..i] + [entities[i]];
      assert Filtered([entities[i]], keep) == if keep(entities[i]) then [entities[i]] else [];
      if keep(entities[i]) {
        filtered[filteredCount] := entities[i];
        filteredCount := filteredCount + 1;
      }
    }
    assert entities[..count] == old(entities[..count]);
    ok := true;
  }

  /** The decision of the loop over the keys: the first nonzero comparison. */
  method ShouldSwap(a: Entity, b: Entity, orderby: seq<string>) returns (swap: bool)
    ensures swap == OutOfOrder(a, b, ParseKeys(orderby))
    ensures swap <==> exists k :: Decides(a, b, ParseKeys(orderby), k)
  {
    ghost var keys := ParseKeys(orderby);
    OutOfOrderIff(a, b, keys);
    hide Decides;
    for k := 0 to |orderby|
      invariant Compare(a, b, keys) == Compare(a, b, keys[k..])
    {
      var cmp := CompareByKey(a, b, ParseKey(orderby[k]));
      if cmp > 0 {
        return true;
      } else if cmp < 0 {
        return false;
      }
      assert keys[k..][1..] == keys[k + 1..];
    }
    return false;
  }

  /** `mp_odata_apply_orderby`: in place on the first `count` cells, and the right way round. */
  method ApplyOrderBy(entities: array<Entity>, count: nat, orderby: seq<string>)
    requires count <= entities.Length
    modifies entities
    ensures entities[..count] == OrderBy(old(entities[..count]), ParseKeys(orderby))
    ensures entities[count..] == old(entities[count..])
    ensures FollowsFirst(entities[..count], old(entities[..count]), orderby)
    ensures FollowsLeading(entities[..count], old(entities[..count]), orderby)
  {
    hide FollowsFirst, FollowsLeading, OrderBy, ParseKeys;
    BubbleSort(entities, count, orderby);
    OrderByFollowsFirst(old(entities[..count]), orderby);
    OrderByFollowsLeading(old(entities[..count]), orderby);
  }

  /** The bubble sort. */
  method BubbleSort(entities: array<Entity>, count: nat, orderby: seq<string>)
    requires count <= entities.Length
    modifies entities
    ensures entities[..count] == OrderBy(old(entities[..count]), ParseKeys(orderby))
    ensures entities[count..] == old(entities[count..])
  {
    ghost var keys := ParseKeys(orderby);
    ghost var start := entities[..count];
    if count == 0 || |orderby| == 0 {
      if |orderby| == 0 {
        NoKeysNoChange(start, 0);
      }
      return;
    }
    for i := 0 to count - 1
      invariant Passes(entities[..count], i, keys) == Passes(start, 0, keys)
      invariant entities[count..] == old(entities[count..])
    {
      SweepOnce(entities, count, count - i - 1, orderby);
    }
  }

  /** The inner loop: one pass over the first `end + 1` cells. */
  method SweepOnce(entities: array<Entity>, count: nat, end: nat, orderby: seq<string>)
    requires end < count <= entities.Length
    modifies entities
    ensures entities[..count] == Pass(old(entities[..count]), 0, end, ParseKeys(orderby))
    ensures entities[count..] == old(entities[count..])
  {
    hide ParseKeys, Bubbled;
    ghost var keys := ParseKeys(orderby);
    ghost var before := entities[..count];
    for j := 0 to end
      invariant Pass(entities[..count], j, end, keys) == Pass(before, 0, end, keys)
      invariant entities[count..] == old(entities[count..])
    {
      CompareNeighbours(entities, count, j, orderby);
    }
  }

  /** Two neighbours are exchanged if they are out of order. */
  method CompareNeighbours(entities: array<Entity>, count: nat, j: nat, orderby: seq<string>)
    requires j + 1 < count <= entities.Length
    modifies entities
    ensures entities[..count] == Bubbled(old(entities[..count]), j, ParseKeys(orderby))
    ensures entities[count..] == old(entities[count..])
  {
    hide ParseKeys, Compare;
    var swap := ShouldSwap(entities[j], entities[j + 1], orderby);
    if swap {
      var tmp := entities[j];
      entities[j] := entities[j + 1];
      entities[j + 1] := tmp;
    }
  }

  method ApplyPaging(entities: array<Entity>, count: nat, top: int, skip: int)
    returns (ok: bool, page: seq<Entity>)
    requires count <= entities.Length
    ensures ok <==> count > 0
    ensures page == Paged(entities[..count], top, skip)
  {
    if count == 0 {
      return false, [];
    }
    if skip < 0 || skip >= count {
      return true, [];
    }
    var end := count;
    if top > 0 {
      end := skip + top;
      if end > count {
        end := count;
      }
    }
    page := entities[skip..end];
    assert page == entities[..count][skip..end];
    assert end == count ==> page == entities[..count][skip..];
    ok := true;
  }

  /** `mp_odata_generate_response`, up to wrapping the entities. Without a filter it sorts the
      caller's own array. */
  method GenerateResponse(entities: array<Entity>, q: Query) returns (data: seq<Entity>)
    modifies entities
    ensures data == Response(old(entities[..]), q)
    ensures entities[..] == if q.filter.Some? then old(entities[..]) else Ordered(old(entities[..]), q)
    ensures !q.paged ==> AllThatPass(data, old(entities[..]), q)
    ensures q.paged ==> IsPage(data, Response(old(entities[..]), q.(paged := false)), q.top, q.skip)
    ensures FollowsFirst(data, Selected(old(entities[..]), q), q.orderby)
    ensures FollowsLeading(data, Selected(old(entities[..]), q), q.orderby)
  {
    hide *;
    if q.paged {
      PagedResponse(entities[..], q);
    } else {
      WholeResponse(entities[..], q);
    }
    data := Respond(entities, q);
  }

  /** The stages one after the other. */
  method Respond(entities: array<Entity>, q: Query) returns (data: seq<Entity>)
    modifies entities
    ensures data == Response(old(entities[..]), q)
    ensures entities[..] == if q.filter.Some? then old(entities[..]) else Ordered(old(entities[..]), q)
  {
    var filtered, count := entities, entities.Length;
    assert entities[..count] == entities[..];
    if q.filter.Some? {
      var ok;
      ok, filtered, count := ApplyFilter(filtered, count, q.filter.value);
    }
    assert filtered[..count] == Selected(old(entities[..]), q);
    ghost var given := entities[..];
    ApplyOrderBy(filtered, count, q.orderby);
    assert filtered == entities ==> entities[..] == entities[..count];
    data := filtered[..count];
    if q.paged {
      var ok;
      ok, data := ApplyPaging(filtered, count, q.top, q.skip);
    }
  }

  /** Sorting a sorted list changes nothing. */
  lemma OrderByIdempotent(s: seq<Entity>, keys: seq<Key>)
    requires Preordered(Elements(s), keys)
    ensures OrderBy(OrderBy(s, keys), keys) == OrderBy(s, keys)
  {
    hide Compare, Peers, Preordered, Sorted, OrderBy;
    var t := OrderBy(s, keys);
    OrderByIsStableSort(s, keys);
    SameElements(t, s);
    StableSortIsOrderBy(t, t, keys);
  }

  /** One paged request against a collection that earlier requests may have sorted. */
  method FetchPage(entities: array<Entity>, q: Query, n: nat, skip: nat, ghost target: seq<Entity>)
    returns (page: seq<Entity>)
    requires n > 0
    requires Ordered(entities[..], q) == target && (q.filter.None? ==> Ordered(target, q) == target)
    modifies entities
    ensures page == Paged(target, n, skip)
    ensures Ordered(entities[..], q) == target
  {
    hide OrderBy, Filtered, ParseKeys, Paged;
    page := GenerateResponse(entities, q.(paged := true, top := n, skip := skip));
  }

  /** Page after page of size `n`, until one comes back empty. */
  method FetchPages(entities: array<Entity>, q: Query, n: nat, ghost target: seq<Entity>)
    returns (all: seq<Entity>)
    requires n > 0
    requires Ordered(entities[..], q) == target && (q.filter.None? ==> Ordered(target, q) == target)
    modifies entities
    ensures all == target
  {
    hide OrderBy, Filtered, ParseKeys, Paged, Ordered, PagesFrom;
    PagesTile(target, n, 0);
    assert target[0..] == target;
    all := [];
    var skip := 0;
    while true
      invariant Ordered(entities[..], q) == target
      invariant all + PagesFrom(target, n, skip) == target
      decreases |target| - skip
    {
      var page := FetchPage(entities, q, n, skip, target);
      PageStep(target, n, skip);
      if page == [] {
        return;
      }
      ghost var rest := PagesFrom(target, n, skip + n);
      assert (all + page) + rest == all + (page + rest);
      all := all + page;
      skip := skip + n;
    }
  }

  /** A client that asks for every page collects exactly the filtered and sorted collection,
      although the first unfiltered request already reorders the collection under the later ones. */
  method FetchAllPages(entities: array<Entity>, q: Query, n: nat) returns (all: seq<Entity>)
    requires n > 0
    requires q.filter.None? ==> Preordered(Elements(entities[..]), ParseKeys(q.orderby))
    modifies entities
    ensures all == Ordered(old(entities[..]), q)
  {
    ghost var target := Ordered(entities[..], q);
    if q.filter.None? {
      OrderByIdempotent(entities[..], ParseKeys(q.orderby));
      assert Ordered(target, q) == target;
    }
    all := FetchPages(entities, q, n, target);
  }
}
