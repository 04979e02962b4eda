/** What the EDF skipper makes of objects nested to any depth when field ids look like the end
    marker: each false end closes one level too early, and what is left of the id re-reads as the
    header of a field of the same type. */
module EdfNesting {
  import opened Bytes
  import opened Edf

  /** Skipping fields until `d` end markers have been taken: the inside of an object at depth `d`. */
  function Levels(buf: seq<byte>, pos: nat, d: nat): (r: Outcome)
    decreases d
  {
    if d == 0 then Outcome(true, pos)
    else
      var r := SkipFields(buf, pos);
      if r.ok then Levels(buf, r.position, d - 1) else r
  }

  /** How many end markers a field id begins with, and the id that is left behind them. */
  function FalseEnds(id: nat): nat {
    if LooksLikeEnd(id) then 1 + FalseEnds(id / 128) else 0
  }

  function LeftId(id: nat): (r: nat)
    ensures r <= id && !LooksLikeEnd(r)
  {
    if LooksLikeEnd(id) then LeftId(id / 128) else id
  }

  /** The false ends among the ids of a value, of nested objects too. */
  function Extra(v: Value): nat {
    match v
    case Record(_, fields) => ExtraFields(fields)
    case _ => 0
  }

  function ExtraField(f: Field): nat {
    FalseEnds(f.id) + Extra(f.value)
  }

  function ExtraFields(fs: seq<Field>): nat {
    if fs == [] then 0 else ExtraField(fs[0]) + ExtraFields(fs[1..])
  }

  /** No false end inside an array, at any depth of objects. */
  ghost predicate ArraysSafe(v: Value) {
    match v
    case List(_, _) => NoFalseEnd(v)
    case Record(_, fields) => forall f :: f in fields ==> ArraysSafe(f.value)
    case _ => true
  }

  lemma {:induction false} NoneExtraIff(v: Value)
    requires ArraysSafe(v)
    ensures Extra(v) == 0 <==> NoFalseEnd(v)
    decreases v, 1
  {
    if v.Record? {
      NoneExtraFieldsIff(v.fields);
    }
  }

  lemma {:induction false} NoneExtraFieldsIff(fs: seq<Field>)
    requires forall f :: f in fs ==> ArraysSafe(f.value)
    ensures ExtraFields(fs) == 0 <==> forall f :: f in fs ==> !LooksLikeEnd(f.id) && NoFalseEnd(f.value)
    decreases fs, 0
  {
    hide NoFalseEnd, ArraysSafe;
    if fs != [] {
      NoneExtraFieldIff(fs[0]);
      NoneExtraFieldsIff(fs[1..]);
      assert fs == [fs[0]] + fs[1..];
    }
  }

  lemma {:induction false} NoneExtraFieldIff(f: Field)
    requires ArraysSafe(f.value)
    ensures ExtraField(f) == 0 <==> !LooksLikeEnd(f.id) && NoFalseEnd(f.value)
    decreases f, 0
  {
    hide NoFalseEnd, ArraysSafe;
    NoneExtraIff(f.value);
  }

  // ---------------------------------------------------------------- one step of the levels

  lemma TakesEnd(buf: seq<byte>, pos: nat, d: nat)
    requires d > 0 && pos < |buf| && buf[pos] == END_MARKER
    ensures Levels(buf, pos, d) == Levels(buf, pos + 1, d - 1)
  {
  }

  lemma TakesField(buf: seq<byte>, pos: nat, d: nat)
    requires d > 0 && pos < |buf| && buf[pos] != END_MARKER && SkipField(buf, pos).ok
    ensures Levels(buf, pos, d) == Levels(buf, SkipField(buf, pos).position, d)
  {
    hide SkipField;
  }

  /** A field that is an object is its own fields, one level deeper, and then the fields behind it. */
  lemma EntersObject(buf: seq<byte>, pos: nat, d: nat)
    requires d > 0 && pos < |buf| && buf[pos] != END_MARKER
    requires var h := FieldHeaderAt(buf, pos); h.ok && h.ty == OBJECT && ObjectHeaderAt(buf, h.position).ok
    ensures Levels(buf, pos, d) == Levels(buf, ObjectHeaderAt(buf, FieldHeaderAt(buf, pos).position).position, d + 1)
  {
    hide FieldHeaderAt, ObjectHeaderAt;
    var q := ObjectHeaderAt(buf, FieldHeaderAt(buf, pos).position).position;
    FieldIsObject(buf, pos);
    var r := SkipFields(buf, q);
    FieldsAfter(buf, pos);
    assert Levels(buf, q, d + 1) == if r.ok then Levels(buf, r.position, d) else r;
  }

  lemma FieldIsObject(buf: seq<byte>, pos: nat)
    requires var h := FieldHeaderAt(buf, pos); h.ok && h.ty == OBJECT && ObjectHeaderAt(buf, h.position).ok
    ensures SkipField(buf, pos) == SkipFields(buf, ObjectHeaderAt(buf, FieldHeaderAt(buf, pos).position).position)
  {
    hide FieldHeaderAt, ObjectHeaderAt, SkipFields;
  }

  lemma FieldsAfter(buf: seq<byte>, pos: nat)
    requires pos < |buf| && buf[pos] != END_MARKER
    ensures var r := SkipField(buf, pos); SkipFields(buf, pos) == if r.ok then SkipFields(buf, r.position) else r
  {
    hide SkipField;
  }

  // ---------------------------------------------------------------- ids

  lemma FalseEndSplits(id: nat)
    requires LooksLikeEnd(id)
    ensures Varint(id) == [END_MARKER] + Varint(id / 128)
  {
  }

  /** The false ends of an id are taken one by one, as long as there are levels to close. */
  lemma {:induction false} IdAtDepth(buf: seq<byte>, pos: nat, id: nat, body: seq<byte>, d: nat)
    requires At(buf, pos, Varint(id) + body)
    ensures At(buf, pos + FalseEnds(id), Varint(LeftId(id)) + body)
    ensures |Varint(id)| == FalseEnds(id) + |Varint(LeftId(id))|
    ensures FalseEnds(id) >= d ==> Levels(buf, pos, d) == Outcome(true, pos + d)
    ensures FalseEnds(id) < d ==> Levels(buf, pos, d) == Levels(buf, pos + FalseEnds(id), d - FalseEnds(id))
    decreases id
  {
    hide Levels, Varint, At;
    LevelsEnd(buf, pos);
    if LooksLikeEnd(id) {
      FalseEndSplits(id);
      var rest := Varint(id / 128) + body;
      assert Varint(id) + body == [END_MARKER] + rest;
      AtSplit(buf, pos, [END_MARKER], rest);
      FirstAt(buf, pos, END_MARKER);
      if d > 0 {
        TakesEnd(buf, pos, d);
        IdAtDepth(buf, pos + 1, id / 128, body, d - 1);
      } else {
        IdAtDepth(buf, pos + 1, id / 128, body, 0);
      }
    }
  }

  lemma LevelsEnd(buf: seq<byte>, pos: nat)
    ensures Levels(buf, pos, 0) == Outcome(true, pos)
  {
  }

  lemma FirstAt(buf: seq<byte>, pos: nat, b: byte)
    requires At(buf, pos, [b])
    ensures pos < |buf| && buf[pos] == b
  {
  }

  lemma HeaderIsNoEnd(buf: seq<byte>, pos: nat, id: nat, rest: seq<byte>)
    requires !LooksLikeEnd(id) && At(buf, pos, Varint(id) + rest)
    ensures pos < |buf| && buf[pos] != END_MARKER
  {
    FalseEndIsItsFirstByte(id);
  }

  // ---------------------------------------------------------------- fields

  /** What becomes of `d` levels over a text that takes `extra` of them early and is `length` long. */
  ghost predicate Goes(buf: seq<byte>, pos: nat, length: nat, extra: nat, d: nat) {
    && (extra < d ==> Levels(buf, pos, d) == Levels(buf, pos + length, d - extra))
    && (extra >= d ==> Levels(buf, pos, d).ok && Levels(buf, pos, d).position <= pos + length)
  }

  lemma {:induction false} FieldsAtDepth(buf: seq<byte>, pos: nat, fs: seq<Field>, d: nat)
    requires forall f :: f in fs ==> f.id < Pow2(32) && WellFormed(f.value) && ArraysSafe(f.value)
    requires d > 0 && At(buf, pos, EncodeFields(fs))
    ensures Goes(buf, pos, |EncodeFields(fs)|, ExtraFields(fs), d)
    decreases fs, 0
  {
    hide Pow2, WellFormed, ArraysSafe, Levels, EncodeField, ExtraField, At;
    if fs != [] {
      AtSplit(buf, pos, EncodeField(fs[0]), EncodeFields(fs[1..]));
      FieldAtDepth(buf, pos, fs[0], d);
      if ExtraField(fs[0]) < d {
        FieldsAtDepth(buf, pos + |EncodeField(fs[0])|, fs[1..], d - ExtraField(fs[0]));
      }
    }
  }

  lemma {:induction false} FieldAtDepth(buf: seq<byte>, pos: nat, f: Field, d: nat)
    requires f.id < Pow2(32) && WellFormed(f.value) && ArraysSafe(f.value)
    requires d > 0 && At(buf, pos, EncodeField(f))
    ensures Goes(buf, pos, |EncodeField(f)|, ExtraField(f), d)
    decreases f, 2
  {
    hide Pow2, WellFormed, ArraysSafe, Levels, Encode, Varint, At, Extra, FalseEnds, LeftId, TypeOf;
    var body := [TypeOf(f.value)] + Encode(f.value);
    assert EncodeField(f) == Varint(f.id) + body;
    IdAtDepth(buf, pos, f.id, body, d);
    var n := FalseEnds(f.id);
    if n < d {
      var g := Field(LeftId(f.id), f.value);
      assert EncodeField(g) == Varint(g.id) + body;
      HonestFieldAtDepth(buf, pos + n, g, d - n);
      NoFalseEnds(g.id);
    }
  }

  lemma NoFalseEnds(id: nat)
    requires !LooksLikeEnd(id)
    ensures FalseEnds(id) == 0
  {
  }

  /** A field whose own id does not look like the end. */
  lemma {:induction false} HonestFieldAtDepth(buf: seq<byte>, pos: nat, f: Field, d: nat)
    requires f.id < Pow2(32) && !LooksLikeEnd(f.id) && WellFormed(f.value) && ArraysSafe(f.value)
    requires d > 0 && At(buf, pos, EncodeField(f))
    ensures Goes(buf, pos, |EncodeField(f)|, Extra(f.value), d)
    decreases f.value, 2
  {
    hide Pow2, WellFormed, Levels, Encode, Varint, At, TypeOf;
    assert EncodeField(f) == Varint(f.id) + ([TypeOf(f.value)] + Encode(f.value));
    HeaderIsNoEnd(buf, pos, f.id, [TypeOf(f.value)] + Encode(f.value));
    if f.value.Record? {
      ObjectAtDepth(buf, pos, f, d);
    } else {
      assert NoFalseEnd(f.value);
      SkipFindsFieldEnd(buf, pos, f);
      TakesField(buf, pos, d);
    }
  }

  lemma {:induction false} ObjectAtDepth(buf: seq<byte>, pos: nat, f: Field, d: nat)
    requires f.value.Record? && f.id < Pow2(32) && WellFormed(f.value) && ArraysSafe(f.value)
    requires d > 0 && At(buf, pos, EncodeField(f)) && pos < |buf| && buf[pos] != END_MARKER
    ensures Goes(buf, pos, |EncodeField(f)|, Extra(f.value), d)
    decreases f.value, 1
  {
    hide Pow2, Levels, Varint, At, LittleEndian, EncodeFields, FieldHeaderAt, ObjectHeaderAt, ExtraFields;
    var schema, fs := f.value.schema, f.value.fields;
    var head, start := Varint(f.id) + [OBJECT], [OBJECT] + LittleEndian(schema, 4);
    var fields := EncodeFields(fs);
    ObjectFieldText(f);
    AtSplit(buf, pos, head, start + (fields + [END_MARKER]));
    AtSplit(buf, pos + |head|, start, fields + [END_MARKER]);
    AtSplit(buf, pos + |head| + 5, fields, [END_MARKER]);
    FieldHeaderRoundTrip(buf, pos, f.id, OBJECT);
    ObjectHeaderRoundTrip(buf, pos + |head|, schema);
    EntersObject(buf, pos, d);
    var q := pos + |head| + 5;
    FieldsAtDepth(buf, q, fs, d + 1);
    if ExtraFields(fs) < d + 1 {
      FirstAt(buf, q + |fields|, END_MARKER);
      TakesEnd(buf, q + |fields|, d + 1 - ExtraFields(fs));
      LevelsEnd(buf, q + |fields| + 1);
    }
  }

  lemma ObjectFieldText(f: Field)
    requires f.value.Record?
    ensures EncodeField(f) == (Varint(f.id) + [OBJECT])
                            + (([OBJECT] + LittleEndian(f.value.schema, 4)) + (EncodeFields(f.value.fields) + [END_MARKER]))
  {
    hide Varint, LittleEndian, EncodeFields;
  }

  // ---------------------------------------------------------------- the exact condition

  /** A value without false ends in its arrays is skipped to exactly its end if and only if no field
      id in it, at any depth of objects, begins with the end marker's byte. Otherwise the skip
      succeeds all the same, too early. */
  lemma SkippedIff(buf: seq<byte>, pos: nat, v: Value)
    requires WellFormed(v) && ArraysSafe(v) && At(buf, pos, Encode(v))
    ensures Skip(buf, pos, TypeOf(v)) == Outcome(true, pos + |Encode(v)|) <==> NoFalseEnd(v)
    ensures Skip(buf, pos, TypeOf(v)).ok && Skip(buf, pos, TypeOf(v)).position <= pos + |Encode(v)|
  {
    hide Skip, Encode, At, WellFormed, NoFalseEnd, ArraysSafe;
    if NoFalseEnd(v) {
      SkipFindsEnd(buf, pos, v);
    } else {
      EndsEarly(buf, pos, v);
    }
  }

  lemma EndsEarly(buf: seq<byte>, pos: nat, v: Value)
    requires WellFormed(v) && ArraysSafe(v) && !NoFalseEnd(v) && At(buf, pos, Encode(v))
    ensures Skip(buf, pos, TypeOf(v)).ok && Skip(buf, pos, TypeOf(v)).position < pos + |Encode(v)|
  {
    hide Pow2, Levels, Varint, At, LittleEndian, EncodeFields, ObjectHeaderAt, ExtraFields, SkipFields;
    NoneExtraIff(v);
    var schema, fs := v.schema, v.fields;
    var start, fields := [OBJECT] + LittleEndian(schema, 4), EncodeFields(fs);
    assert Encode(v) == start + (fields + [END_MARKER]);
    AtSplit(buf, pos, start, fields + [END_MARKER]);
    AtSplit(buf, pos + 5, fields, [END_MARKER]);
    ObjectHeaderRoundTrip(buf, pos, schema);
    FieldsAtDepth(buf, pos + 5, fs, 1);
    OneLevel(buf, pos + 5);
  }

  lemma OneLevel(buf: seq<byte>, pos: nat)
    ensures Levels(buf, pos, 1) == SkipFields(buf, pos)
  {
    hide SkipFields;
    var r := SkipFields(buf, pos);
    if r.ok {
      LevelsEnd(buf, r.position);
    }
  }

  // ---------------------------------------------------------------- arrays can recover

  /** Two objects in an array, the first with a field whose id begins with the end marker's byte. */
  function Recovering(): Value {
    List(OBJECT, [Record(0, [Field(2047, Fixed(1, 15))]), Record(0, [])])
  }

  const RECOVERING: seq<byte> := [14, 15, 2, 15, 0, 0, 0, 0, 255, 15, 1, 15, 255, 15, 0, 0, 0, 0, 255]

  lemma RecoveringBytes()
    ensures Encode(Recovering()) == RECOVERING
  {
    var first, second := Record(0, [Field(2047, Fixed(1, 15))]), Record(0, []);
    FirstBytes();
    SecondBytes();
    hide EncodeFields, LittleEndian;
    assert Varint(2) == [2];
    assert [first, second][1..] == [second] && [second][1..] == [];
    assert EncodeElements([second]) == Encode(second) + EncodeElements([]);
    assert EncodeElements([first, second]) == Encode(first) + EncodeElements([second]);
  }

  lemma FirstBytes()
    ensures Encode(Record(0, [Field(2047, Fixed(1, 15))])) == [15, 0, 0, 0, 0, 255, 15, 1, 15, 255]
  {
    var f := Field(2047, Fixed(1, 15));
    FourZeros();
    assert Varint(2047) == [255, 15] by { assert Varint(15) == [15]; }
    assert LittleEndian(15, 1) == [15] by { assert LittleEndian(0, 0) == []; }
    assert EncodeField(f) == [255, 15, 1, 15];
    hide EncodeField, LittleEndian;
    assert [f][1..] == [];
    assert EncodeFields([f]) == [255, 15, 1, 15] + EncodeFields([]);
  }

  lemma SecondBytes()
    ensures Encode(Record(0, [])) == [15, 0, 0, 0, 0, 255]
  {
    FourZeros();
  }

  lemma FourZeros()
    ensures LittleEndian(0, 4) == [0, 0, 0, 0]
  {
    assert LittleEndian(0, 2) == [0, 0] by { assert LittleEndian(0, 1) == [0]; }
    assert LittleEndian(0, 3) == [0, 0, 0];
  }

  lemma SmallBounds()
    ensures 15 < Pow2(8) && 2047 < Pow2(32) && 2 < Pow2(64)
  {
    WordSizes();
    assert Pow2(8) == 256;
  }

  lemma ElementsAreWellFormed()
    ensures WellFormed(Record(0, [Field(2047, Fixed(1, 15))])) && WellFormed(Record(0, []))
    ensures !NoFalseEnd(Record(0, [Field(2047, Fixed(1, 15))]))
  {
    hide Pow2;
    SmallBounds();
    var f := Field(2047, Fixed(1, 15));
    assert WellFormed(f.value);
    assert f in [f] && LooksLikeEnd(f.id);
    assert forall g :: g in [f] ==> g == f;
  }

  lemma RecoveringIsWellFormed()
    ensures WellFormed(Recovering()) && !NoFalseEnd(Recovering())
  {
    hide Pow2, TypeOf;
    SmallBounds();
    ElementsAreWellFormed();
    var first, second := Record(0, [Field(2047, Fixed(1, 15))]), Record(0, []);
    assert TypeOf(first) == OBJECT && TypeOf(second) == OBJECT by { RecordsAreObjects(first); RecordsAreObjects(second); }
    ListOfTwo(first, second);
  }

  lemma RecordsAreObjects(v: Value)
    requires v.Record?
    ensures TypeOf(v) == OBJECT
  {
  }

  lemma ListOfTwo(first: Value, second: Value)
    requires WellFormed(first) && WellFormed(second) && TypeOf(first) == OBJECT && TypeOf(second) == OBJECT
    requires !NoFalseEnd(first)
    ensures WellFormed(List(OBJECT, [first, second])) && !NoFalseEnd(List(OBJECT, [first, second]))
  {
    hide Pow2, TypeOf;
    SmallBounds();
    assert first in [first, second];
  }

  /** A one-byte varint. */
  lemma ByteReads(b: seq<byte>, pos: nat, width: nat)
    requires pos < |b| && b[pos] < 128 && width >= 8
    ensures ReadVarint(b, pos, 0, 0, width) == VarintRead(true, b[pos], pos + 1)
  {
    assert Pow2(0) == 1 && Pow2(8) == 256;
    hide Pow2;
    Pow2Strict(8, width);
    SmallModulo(b[pos], Pow2(width));
  }

  lemma FirstObjectEndsEarly(b: seq<byte>)
    requires b == RECOVERING
    ensures Skip(b, 3, OBJECT) == Outcome(true, 9)
  {
    hide FieldHeaderAt, SkipField, SkipElements, ReadVarint;
    assert ObjectHeaderAt(b, 3) == Outcome(true, 8);
    assert SkipFields(b, 8) == Outcome(true, 9);
  }

  lemma NullFieldAt(b: seq<byte>, pos: nat)
    requires pos + 2 <= |b| && b[pos] == 0 && b[pos + 1] == NULL
    ensures SkipFields(b, pos) == SkipFields(b, pos + 2)
  {
    ByteReads(b, pos, 32);
    hide ReadVarint, SkipFields;
    assert FieldHeaderAt(b, pos) == FieldHeader(true, 0, NULL, pos + 2);
    assert SkipField(b, pos) == Outcome(true, pos + 2);
    FieldsAfter(b, pos);
  }

  lemma SecondObjectRecovers(b: seq<byte>)
    requires b == RECOVERING
    ensures Skip(b, 9, OBJECT) == Outcome(true, 19)
  {
    hide FieldHeaderAt, SkipField, SkipElements, ReadVarint;
    assert ObjectHeaderAt(b, 9) == Outcome(true, 14);
    NullFieldAt(b, 14);
    NullFieldAt(b, 16);
    assert SkipFields(b, 18) == Outcome(true, 19);
  }

  lemma TwoSkipped(b: seq<byte>, p: nat, q: nat, r: nat)
    requires Skip(b, p, OBJECT) == Outcome(true, q) && Skip(b, q, OBJECT) == Outcome(true, r)
    ensures SkipElements(b, p, OBJECT, 2) == Outcome(true, r)
  {
    hide Skip;
    assert SkipElements(b, r, OBJECT, 0) == Outcome(true, r);
    assert SkipElements(b, q, OBJECT, 1) == Outcome(true, r);
  }

  /** What follows the false end, `15 1 15 255 15 0 0 0 0 255`, reads as an object of schema
      0x0fff0f01 with two null fields, and ends where the second object ends. */
  lemma ArraysCanRecover()
    ensures WellFormed(Recovering()) && !NoFalseEnd(Recovering())
    ensures var b := Encode(Recovering()); Skip(b, 0, ARRAY) == Outcome(true, |b|)
  {
    hide *;
    RecoveringBytes();
    RecoveringIsWellFormed();
    RecoverySkips(RECOVERING);
  }

  lemma RecoverySkips(b: seq<byte>)
    requires b == RECOVERING
    ensures Skip(b, 0, ARRAY) == Outcome(true, |b|)
  {
    hide SkipElements, ArrayHeaderAt, ReadVarint;
    FirstObjectEndsEarly(b);
    SecondObjectRecovers(b);
    TwoSkipped(b, 3, 9, 19);
    TwoObjectsAt(b);
  }

  lemma TwoObjectsAt(b: seq<byte>)
    requires b == RECOVERING
    ensures ArrayHeaderAt(b, 0) == ArrayHeader(true, OBJECT, 2, 3)
  {
    hide ReadVarint;
    ByteReads(b, 2, 64);
  }
}
