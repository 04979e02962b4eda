/** EDF: the writers of type bytes, field headers, arrays and objects, and the skipper that must
    find its way over what they wrote (src/serialization/edf.c). */
module Edf {
  import opened Bytes
  import opened Buffers

  const NULL: byte := 0
  const STRING: byte := 12
  const BYTES: byte := 13
  const ARRAY: byte := 14
  const OBJECT: byte := 15
  const END_MARKER: byte := 0xFF

  /** Bytes of a value of fixed width, by type code; 0 for every other code. */
  function Width(ty: byte): nat {
    match ty
    case 1 | 2 | 6 => 1
    case 3 | 7 => 2
    case 4 | 8 | 10 | 17 | 19 => 4
    case 5 | 9 | 11 | 18 | 20 => 8
    case _ => 0
  }

  // ---------------------------------------------------------------- values and their encoding

  /** A value of one of the types the skipper knows. `Fixed` carries its bits; `Blob` is a string
      or a byte string. A null is carried by its header alone. */
  datatype Value =
    | Null
    | Fixed(kind: byte, bits: nat)
    | Blob(kind: byte, data: seq<byte>)
    | List(elementType: byte, elements: seq<Value>)
    | Record(schema: nat, fields: seq<Field>)

  datatype Field = Field(id: nat, value: Value)

  function TypeOf(v: Value): byte {
    match v
    case Null => NULL
    case Fixed(kind, _) => kind
    case Blob(kind, _) => kind
    case List(_, _) => ARRAY
    case Record(_, _) => OBJECT
  }

  /** The value fits the C types of the write functions' arguments. */
  ghost predicate WellFormed(v: Value) {
    match v
    case Null => true
    case Fixed(kind, bits) => Width(kind) > 0 && bits < Pow2(8 * Width(kind))
    case Blob(kind, data) => (kind == STRING || kind == BYTES) && |data| < Pow2(64)
    case List(elementType, elements) =>
      && |elements| < Pow2(64)
      && forall e :: e in elements ==> TypeOf(e) == elementType && WellFormed(e)
    case Record(schema, fields) =>
      && schema < Pow2(32)
      && forall f :: f in fields ==> f.id < Pow2(32) && WellFormed(f.value)
  }

  /** The first byte of this field id is the end marker. */
  predicate LooksLikeEnd(id: nat) {
    id >= 128 && id % 128 == 127
  }

  ghost predicate NoFalseEnd(v: Value) {
    match v
    case List(_, elements) => forall e :: e in elements ==> NoFalseEnd(e)
    case Record(_, fields) => forall f :: f in fields ==> !LooksLikeEnd(f.id) && NoFalseEnd(f.value)
    case _ => true
  }

  function Encode(v: Value): seq<byte> {
    match v
    case Null => []
    case Fixed(kind, bits) => LittleEndian(bits, Width(kind))
    case Blob(_, data) => Varint(|data|) + data
    case List(elementType, elements) => [ARRAY, elementType] + Varint(|elements|) + EncodeElements(elements)
    case Record(schema, fields) => [OBJECT] + LittleEndian(schema, 4) + EncodeFields(fields) + [END_MARKER]
  }

  function EncodeElements(es: seq<Value>): seq<byte> {
    if es == [] then [] else Encode(es[0]) + EncodeElements(es[1..])
  }

  function EncodeField(f: Field): seq<byte> {
    Varint(f.id) + [TypeOf(f.value)] + Encode(f.value)
  }

  function EncodeFields(fs: seq<Field>): seq<byte> {
    if fs == [] then [] else EncodeField(fs[0]) + EncodeFields(fs[1..])
  }

  // ---------------------------------------------------------------- reading and skipping

  datatype Outcome = Outcome(ok: bool, position: nat)

  datatype FieldHeader = FieldHeader(ok: bool, id: nat, ty: byte, position: nat)

  datatype ArrayHeader = ArrayHeader(ok: bool, elementType: byte, count: nat, position: nat)

  function Left(buf: seq<byte>, pos: nat): nat {
    if pos <= |buf| then |buf| - pos else 0
  }

  function FieldHeaderAt(buf: seq<byte>, pos: nat): (h: FieldHeader)
    ensures h.position >= pos
    ensures h.ok ==> pos < h.position <= |buf|
  {
    var id := ReadVarint(buf, pos, 0, 0, 32);
    if !id.ok || id.position >= |buf| then FieldHeader(false, id.value, NULL, id.position)
    else FieldHeader(true, id.value, buf[id.position], id.position + 1)
  }

  function ArrayHeaderAt(buf: seq<byte>, pos: nat): (h: ArrayHeader)
    ensures h.position >= pos
    ensures h.ok ==> pos < h.position <= |buf|
  {
    if pos >= |buf| then ArrayHeader(false, NULL, 0, pos)
    else if buf[pos] != ARRAY || pos + 1 >= |buf| then ArrayHeader(false, NULL, 0, pos + 1)
    else
      var count := ReadVarint(buf, pos + 2, 0, 0, 64);
      ArrayHeader(count.ok, buf[pos + 1], count.value, count.position)
  }

  function ObjectHeaderAt(buf: seq<byte>, pos: nat): (r: Outcome)
    ensures r.position >= pos
    ensures r.ok ==> pos < r.position <= |buf|
  {
    if pos >= |buf| then Outcome(false, pos)
    else if buf[pos] != OBJECT || pos + 5 > |buf| then Outcome(false, pos + 1)
    else Outcome(true, pos + 5)
  }

  /** Skipping a value of type `ty` from `pos`, with positions that do not wrap: it never moves back,
      whatever the bytes are, and the recursion is bounded by the bytes left before each nested
      header. With 64-bit positions this is what the code does exactly up to a position of 2^64. */
  function Skip(buf: seq<byte>, pos: nat, ty: byte): (r: Outcome)
    ensures r.position >= pos
    decreases Left(buf, pos), 0, 0
  {
    if ty == NULL then Outcome(true, pos)
    else if Width(ty) > 0 then Outcome(true, pos + Width(ty))
    else if ty == STRING || ty == BYTES then
      var length := ReadVarint(buf, pos, 0, 0, 64);
      if length.ok then Outcome(true, length.position + length.value) else Outcome(false, length.position)
    else if ty == ARRAY then
      var h := ArrayHeaderAt(buf, pos);
      if h.ok then SkipElements(buf, h.position, h.elementType, h.count) else Outcome(false, h.position)
    else if ty == OBJECT then
      var h := ObjectHeaderAt(buf, pos);
      if h.ok then SkipFields(buf, h.position) else h
    else Outcome(false, pos)
  }

  function SkipElements(buf: seq<byte>, pos: nat, ty: byte, count: nat): (r: Outcome)
    ensures r.position >= pos
    decreases Left(buf, pos), 1, count
  {
    if count == 0 then Outcome(true, pos)
    else
      var first := Skip(buf, pos, ty);
      if first.ok then SkipElements(buf, first.position, ty, count - 1) else first
  }

  /** Fields up to the end marker; running off the end of the buffer is a success too. */
  function SkipFields(buf: seq<byte>, pos: nat): (r: Outcome)
    ensures r.position >= pos
    decreases Left(buf, pos), 1, 0
  {
    if pos >= |buf| then Outcome(true, pos)
    else if buf[pos] == END_MARKER then Outcome(true, pos + 1)
    else
      var r := SkipField(buf, pos);
      if r.ok then SkipFields(buf, r.position) else r
  }

  function SkipField(buf: seq<byte>, pos: nat): (r: Outcome)
    ensures r.position >= pos
    ensures r.ok ==> r.position > pos
    decreases Left(buf, pos), 0, 0
  {
    var h := FieldHeaderAt(buf, pos);
    if h.ok then Skip(buf, h.position, h.ty) else Outcome(false, h.position)
  }

  // ---------------------------------------------------------------- the type codes in numbers

  /** What stands for a value of fixed width: for the codes of booleans and 8-bit integers one byte, of
      16-bit ones two, of 32-bit ones and floats four, of 64-bit ones and doubles eight, the lowest
      first; for any other code nothing. */
  lemma FixedBytes(kind: byte, bits: nat)
    ensures var e := Encode(Fixed(kind, bits));
      && |e| == (if kind in {1, 2, 6} then 1 else if kind in {3, 7} then 2 else
                 if kind in {4, 8, 10, 17, 19} then 4 else if kind in {5, 9, 11, 18, 20} then 8 else 0)
      && forall i :: 0 <= i < |e| ==> e[i] == bits / Pow2(8 * i) % 256
  {
    hide Pow2, LittleEndian;
    forall i | 0 <= i < Width(kind)
      ensures LittleEndian(bits, Width(kind))[i] == bits / Pow2(8 * i) % 256
    {
      LittleEndianAt(bits, Width(kind), i);
    }
  }

  /** How far a skip goes, by the number of the type: nothing for a null, and a failure on the spot for
      the codes that it does not know. */
  lemma SkippedBytes(buf: seq<byte>, pos: nat, ty: byte)
    ensures ty == 0 ==> Skip(buf, pos, ty) == Outcome(true, pos)
    ensures ty in {1, 2, 6} ==> Skip(buf, pos, ty) == Outcome(true, pos + 1)
    ensures ty in {3, 7} ==> Skip(buf, pos, ty) == Outcome(true, pos + 2)
    ensures ty in {4, 8, 10, 17, 19} ==> Skip(buf, pos, ty) == Outcome(true, pos + 4)
    ensures ty in {5, 9, 11, 18, 20} ==> Skip(buf, pos, ty) == Outcome(true, pos + 8)
    ensures ty == 16 || ty > 20 ==> Skip(buf, pos, ty) == Outcome(false, pos)
  {
    hide SkipElements, SkipFields;
  }

  /** Strings are a length and their bytes; arrays begin with 14 and their elements' type, objects with
      15, and objects end with 255. */
  lemma Framing(v: Value)
    ensures v.Null? ==> Encode(v) == []
    ensures v.Blob? ==> Encode(v) == Varint(|v.data|) + v.data
    ensures v.List? ==> Encode(v)[..2] == [14, v.elementType]
    ensures v.Record? ==> Encode(v)[0] == 15 && |Encode(v)| >= 6 && Encode(v)[|Encode(v)| - 1] == 0xFF
  {
    hide Varint, LittleEndian, EncodeElements, EncodeFields;
  }

  /** On any bytes, an array header is taken only if it begins with 14 and has an element type and a
      count behind it, and an object header exactly if it begins with 15 and has four bytes behind it;
      fields that run to the end of the buffer end there. */
  lemma HeadersTaken(buf: seq<byte>, pos: nat)
    ensures var h := ArrayHeaderAt(buf, pos);
      h.ok <==> pos + 1 < |buf| && buf[pos] == 14 && VarintEnds(buf, pos + 2, 64)
    ensures var h := ArrayHeaderAt(buf, pos); h.ok ==> h.elementType == buf[pos + 1]
    ensures ObjectHeaderAt(buf, pos).ok <==> pos + 5 <= |buf| && buf[pos] == 15
    ensures pos >= |buf| ==> SkipFields(buf, pos) == Outcome(true, pos)
    ensures pos < |buf| && buf[pos] == 255 ==> SkipFields(buf, pos) == Outcome(true, pos + 1)
  {
    hide ReadVarint, SkipField;
    ReadVarintIff(buf, pos + 2, 0, 0, 64);
  }

  // ---------------------------------------------------------------- skip undoes write

  lemma FieldHeaderRoundTrip(buf: seq<byte>, pos: nat, id: nat, ty: byte)
    requires At(buf, pos, Varint(id) + [ty]) && id < Pow2(32)
    ensures FieldHeaderAt(buf, pos) == FieldHeader(true, id, ty, pos + |Varint(id)| + 1)
  {
    hide Pow2, Group;
    AtSplit(buf, pos, Varint(id), [ty]);
    ReadsBack(buf, pos, id, 32);
  }

  lemma ArrayHeaderRoundTrip(buf: seq<byte>, pos: nat, ty: byte, count: nat)
    requires At(buf, pos, [ARRAY, ty] + Varint(count)) && count < Pow2(64)
    ensures ArrayHeaderAt(buf, pos) == ArrayHeader(true, ty, count, pos + 2 + |Varint(count)|)
  {
    hide Pow2, Group;
    AtSplit(buf, pos, [ARRAY, ty], Varint(count));
    assert At(buf, pos + 1, [ARRAY, ty][1..]);
    ReadsBack(buf, pos + 2, count, 64);
  }

  lemma ObjectHeaderRoundTrip(buf: seq<byte>, pos: nat, schema: nat)
    requires At(buf, pos, [OBJECT] + LittleEndian(schema, 4))
    ensures ObjectHeaderAt(buf, pos) == Outcome(true, pos + 5)
  {
    AtIsSlice(buf, pos, [OBJECT] + LittleEndian(schema, 4));
  }

  /** Wherever it stands, whatever follows it, a written value is skipped to exactly its end. */
  lemma {:induction false} SkipFindsEnd(buf: seq<byte>, pos: nat, v: Value)
    requires WellFormed(v) && NoFalseEnd(v)
    requires At(buf, pos, Encode(v))
    ensures Skip(buf, pos, TypeOf(v)) == Outcome(true, pos + |Encode(v)|)
    decreases v, 1
  {
    hide Pow2, Group, ReadVarint, At, LittleEndian, Varint;
    match v
    case Null =>
    case Fixed(kind, bits) =>
    case Blob(kind, data) =>
      AtSplit(buf, pos, Varint(|data|), data);
      ReadsBack(buf, pos, |data|, 64);
    case List(elementType, elements) =>
      var header := [ARRAY, elementType] + Varint(|elements|);
      AtSplit(buf, pos, header, EncodeElements(elements));
      ArrayHeaderRoundTrip(buf, pos, elementType, |elements|);
      SkipFindsElementsEnd(buf, pos + |header|, elementType, elements);
    case Record(schema, fields) =>
      var header, body := [OBJECT] + LittleEndian(schema, 4), EncodeFields(fields) + [END_MARKER];
      assert Encode(v) == header + body;
      AtSplit(buf, pos, header, body);
      ObjectHeaderRoundTrip(buf, pos, schema);
      SkipFindsFieldsEnd(buf, pos + 5, fields);
  }

  lemma {:induction false} SkipFindsElementsEnd(buf: seq<byte>, pos: nat, ty: byte, es: seq<Value>)
    requires forall e :: e in es ==> TypeOf(e) == ty && WellFormed(e) && NoFalseEnd(e)
    requires At(buf, pos, EncodeElements(es))
    ensures SkipElements(buf, pos, ty, |es|) == Outcome(true, pos + |EncodeElements(es)|)
    decreases es, 0
  {
    hide Pow2, Group, At, WellFormed, NoFalseEnd, Skip, SkipField, Encode, EncodeField, Varint;
    if es != [] {
      AtSplit(buf, pos, Encode(es[0]), EncodeElements(es[1..]));
      SkipFindsEnd(buf, pos, es[0]);
      SkipFindsElementsEnd(buf, pos + |Encode(es[0])|, ty, es[1..]);
    }
  }

  lemma {:induction false} SkipFindsFieldsEnd(buf: seq<byte>, pos: nat, fs: seq<Field>)
    requires forall f :: f in fs ==> f.id < Pow2(32) && WellFormed(f.value)
    requires forall f :: f in fs ==> !LooksLikeEnd(f.id) && NoFalseEnd(f.value)
    requires At(buf, pos, EncodeFields(fs) + [END_MARKER])
    ensures SkipFields(buf, pos) == Outcome(true, pos + |EncodeFields(fs)| + 1)
    decreases fs, 0
  {
    hide Pow2, Group, WellFormed, NoFalseEnd, Skip, SkipField, Encode;
    if fs != [] {
      var f, rest := fs[0], EncodeFields(fs[1..]) + [END_MARKER];
      assert EncodeFields(fs) + [END_MARKER] == EncodeField(f) + rest;
      AtSplit(buf, pos, EncodeField(f), rest);
      SkipFindsFieldEnd(buf, pos, f);
      SkipFindsFieldsEnd(buf, pos + |EncodeField(f)|, fs[1..]);
    }
  }

  /** `mp_edf_skip_field` over one written field. */
  lemma {:induction false} SkipFindsFieldEnd(buf: seq<byte>, pos: nat, f: Field)
    requires f.id < Pow2(32) && WellFormed(f.value) && NoFalseEnd(f.value)
    requires At(buf, pos, EncodeField(f))
    ensures SkipField(buf, pos) == Outcome(true, pos + |EncodeField(f)|)
    decreases f, 2
  {
    hide Pow2, Group;
    AtSplit(buf, pos, Varint(f.id) + [TypeOf(f.value)], Encode(f.value));
    FieldHeaderRoundTrip(buf, pos, f.id, TypeOf(f.value));
    SkipFindsEnd(buf, pos + |Varint(f.id)| + 1, f.value);
  }

  // ---------------------------------------------------------------- the end marker's blind spot

  lemma FalseEndIsItsFirstByte(id: nat)
    ensures Varint(id)[0] == END_MARKER <==> LooksLikeEnd(id)
  {}

  /** Up to its first field whose id looks like the end, an object's fields are skipped one by one. */
  lemma {:induction false} SkipStopsAtFalseEnd(buf: seq<byte>, pos: nat, fs: seq<Field>, k: nat)
    requires k < |fs| && LooksLikeEnd(fs[k].id)
    requires forall i :: 0 <= i < k ==> !LooksLikeEnd(fs[i].id)
    requires forall f :: f in fs ==> f.id < Pow2(32) && WellFormed(f.value) && NoFalseEnd(f.value)
    requires At(buf, pos, EncodeFields(fs))
    ensures SkipFields(buf, pos) == Outcome(true, pos + |EncodeFields(fs[..k])| + 1)
    ensures |EncodeFields(fs[..k])| + 1 < |EncodeFields(fs)|
    decreases k
  {
    hide Pow2, Group, ReadVarint, Encode, Varint, WellFormed, NoFalseEnd, Skip, FieldHeaderAt;
    FalseEndIsItsFirstByte(fs[0].id);
    var f := fs[0];
    AtSplit(buf, pos, EncodeField(f), EncodeFields(fs[1..]));
    var body := [TypeOf(f.value)] + Encode(f.value);
    assert EncodeField(f) == Varint(f.id) + body;
    AtSplit(buf, pos, Varint(f.id), body);
    if k > 0 {
      SkipFindsFieldEnd(buf, pos, f);
      SkipStopsAtFalseEnd(buf, pos + |EncodeField(f)|, fs[1..], k - 1);
      assert fs[..k][1..] == fs[1..][..k - 1];
    }
  }

  // ---------------------------------------------------------------- the write functions

  method WriteFieldHeader(w: Writer, id: nat, ty: byte)
    requires w.Valid() && w.Room(|Varint(id)| + 1)
    modifies w, w.buffer
    ensures w.Valid() && w.Regrown()
    ensures w.Contents() == old(w.Contents()) + (Varint(id) + [ty])
  {
    w.WriteLength(id);
    w.WriteByte(ty);
  }

  method WriteBlob(w: Writer, data: seq<byte>) returns (ok: bool)
    requires w.Valid() && w.Room(|Varint(|data|)|)
    modifies w, w.buffer
    ensures w.Valid() && w.Regrown()
    ensures ok == old(w.Room(|Varint(|data|)| + |data|))
    ensures w.Contents() == old(w.Contents()) + Varint(|data|) + (if ok then data else [])
  {
    w.WriteLength(|data|);
    ok := w.WriteData(data);
  }

  method WriteArrayHeader(w: Writer, elementType: byte, count: nat)
    requires w.Valid() && w.Room(2 + |Varint(count)|)
    modifies w, w.buffer
    ensures w.Valid() && w.Regrown()
    ensures w.Contents() == old(w.Contents()) + ([ARRAY, elementType] + Varint(count))
  {
    w.WriteByte(ARRAY);
    w.WriteByte(elementType);
    w.WriteLength(count);
  }

  method WriteObjectHeader(w: Writer, schema: nat)
    requires w.Valid() && w.Room(5)
    modifies w, w.buffer
    ensures w.Valid() && w.Regrown()
    ensures w.Contents() == old(w.Contents()) + ([OBJECT] + LittleEndian(schema, 4))
  {
    w.WriteByte(OBJECT);
    w.WriteWord(schema, 4);
  }

  /** The write function of the type: `mp_edf_write_bool` and its likes, each with its own width. */
  method WriteFixed(w: Writer, kind: byte, bits: nat)
    requires w.Valid() && w.Room(|Encode(Fixed(kind, bits))|)
    modifies w, w.buffer
    ensures w.Valid() && w.Regrown()
    ensures w.Contents() == old(w.Contents()) + Encode(Fixed(kind, bits))
  {
    hide LittleEndian;
    match kind
    case 1 | 2 | 6 => w.WriteWord(bits, 1);
    case 3 | 7 => w.WriteWord(bits, 2);
    case 4 | 8 | 10 | 17 | 19 => w.WriteWord(bits, 4);
    case 5 | 9 | 11 | 18 | 20 => w.WriteWord(bits, 8);
    case _ =>
  }

  /** The calls a client makes to write a value; the source leaves this walk to its callers. */
  method WriteValue(w: Writer, v: Value)
    requires w.Valid() && w.Room(|Encode(v)|)
    modifies w, w.buffer
    ensures w.Valid() && w.Regrown()
    ensures w.Contents() == old(w.Contents()) + Encode(v)
    decreases v
  {
    hide Varint, LittleEndian;
    match v
    case Null =>
    case Fixed(kind, bits) =>
      WriteFixed(w, kind, bits);
    case Blob(_, data) =>
      var ok := WriteBlob(w, data);
    case List(elementType, elements) =>
      WriteArrayHeader(w, elementType, |elements|);
      WriteElements(w, elements);
    case Record(schema, fields) =>
      WriteObjectHeader(w, schema);
      WriteFields(w, fields);
      w.WriteByte(END_MARKER);
  }

  method WriteElements(w: Writer, es: seq<Value>)
    requires w.Valid() && w.Room(|EncodeElements(es)|)
    modifies w, w.buffer
    ensures w.Valid() && w.Regrown()
    ensures w.Contents() == old(w.Contents()) + EncodeElements(es)
    decreases es
  {
    if es != [] {
      WriteValue(w, es[0]);
      WriteElements(w, es[1..]);
    }
  }

  method WriteFields(w: Writer, fs: seq<Field>)
    requires w.Valid() && w.Room(|EncodeFields(fs)|)
    modifies w, w.buffer
    ensures w.Valid() && w.Regrown()
    ensures w.Contents() == old(w.Contents()) + EncodeFields(fs)
    decreases fs
  {
    if fs != [] {
      WriteField(w, fs[0]);
      WriteFields(w, fs[1..]);
    }
  }

  method WriteField(w: Writer, f: Field)
    requires w.Valid() && w.Room(|EncodeField(f)|)
    modifies w, w.buffer
    ensures w.Valid() && w.Regrown()
    ensures w.Contents() == old(w.Contents()) + EncodeField(f)
    decreases f
  {
    hide Varint, Encode;
    WriteFieldHeader(w, f.id, TypeOf(f.value));
    WriteValue(w, f.value);
  }

  // ---------------------------------------------------------------- the skip functions

  method ReadFieldHeader(r: Reader) returns (ok: bool, id: nat, ty: byte)
    modifies r
    ensures FieldHeader(ok, id, ty, r.position) == FieldHeaderAt(r.buffer, old(r.position))
  {
    ok, id := r.ReadVarint(32);
    if !ok || r.position >= |r.buffer| {
      return false, id, NULL;
    }
    ty := r.buffer[r.position];
    r.position := r.position + 1;
  }

  method ReadArrayHeader(r: Reader) returns (ok: bool, elementType: byte, count: nat)
    modifies r
    ensures ArrayHeader(ok, elementType, count, r.position) == ArrayHeaderAt(r.buffer, old(r.position))
  {
    if r.position >= |r.buffer| {
      return false, NULL, 0;
    }
    var ty := r.buffer[r.position];
    r.position := r.position + 1;
    if ty != ARRAY || r.position >= |r.buffer| {
      return false, NULL, 0;
    }
    elementType := r.buffer[r.position];
    r.position := r.position + 1;
    ok, count := r.ReadVarint(64);
  }

  method ReadObjectHeader(r: Reader) returns (ok: bool)
    modifies r
    ensures Outcome(ok, r.position) == ObjectHeaderAt(r.buffer, old(r.position))
  {
    if r.position >= |r.buffer| {
      return false;
    }
    var ty := r.buffer[r.position];
    r.position := r.position + 1;
    if ty != OBJECT || r.position + 4 > |r.buffer| {
      return false;
    }
    r.position := r.position + 4;
    return true;
  }

  /** `mp_edf_skip_value`, in 64 bits: where no sum wraps its loops and recursion end and compute
      `Skip`. */
  method SkipValue(r: Reader, ty: byte) returns (ok: bool)
    requires Skip(r.buffer, r.position, ty).position < U64
    modifies r
    ensures Outcome(ok, r.position) == Skip(r.buffer, old(r.position), ty)
    decreases Left(r.buffer, r.position)
  {
    hide ReadVarint, ArrayHeaderAt, ObjectHeaderAt, FieldHeaderAt;
    if ty == NULL {
      return true;
    } else if Width(ty) > 0 {
      r.position := (r.position + Width(ty)) % U64;
      return true;
    } else if ty == STRING || ty == BYTES {
      var length;
      ok, length := r.ReadVarint(64);
      if ok {
        r.position := (r.position + length) % U64;
      }
    } else if ty == ARRAY {
      var elementType, count;
      ok, elementType, count := ReadArrayHeader(r);
      if !ok {
        return false;
      }
      ghost var start := r.position;
      for i := 0 to count
        invariant r.position >= start
        invariant SkipElements(r.buffer, start, elementType, count).position < U64
        invariant SkipElements(r.buffer, start, elementType, count)
               == SkipElements(r.buffer, r.position, elementType, count - i)
      {
        ok := SkipValue(r, elementType);
        if !ok {
          return false;
        }
      }
      return true;
    } else if ty == OBJECT {
      ok := ReadObjectHeader(r);
      if !ok {
        return false;
      }
      ghost var start := r.position;
      while r.position < |r.buffer|
        invariant r.position >= start
        invariant SkipFields(r.buffer, start).position < U64
        invariant SkipFields(r.buffer, start) == SkipFields(r.buffer, r.position)
        decreases Left(r.buffer, r.position)
      {
        if r.buffer[r.position] == END_MARKER {
          r.position := r.position + 1;
          return true;
        }
        var id, fieldType;
        ok, id, fieldType := ReadFieldHeader(r);
        if !ok {
          return false;
        }
        ok := SkipValue(r, fieldType);
        if !ok {
          return false;
        }
      }
      return true;
    } else {
      return false;
    }
  }

  /** `mp_edf_skip_field` */
  method SkipWholeField(r: Reader) returns (ok: bool)
    requires SkipField(r.buffer, r.position).position < U64
    modifies r
    ensures Outcome(ok, r.position) == SkipField(r.buffer, old(r.position))
  {
    var id, ty;
    ok, id, ty := ReadFieldHeader(r);
    if ok {
      ok := SkipValue(r, ty);
    }
  }

  // ---------------------------------------------------------------- end to end

  /** The bytes of a value and then other bytes, as a dynamic writer of any initial capacity
      collects them. */
  method Collect(v: Value, others: seq<byte>, initialCapacity: nat) returns (data: seq<byte>)
    ensures data == Encode(v) + others
  {
    hide Encode;
    var w := new Writer.Dynamic(initialCapacity);
    WriteValue(w, v);
    assert w.Contents() == Encode(v);
    var copied := w.WriteData(others);
    data := w.Contents();
  }

  /** A value and then other bytes are written to a dynamic writer of any initial capacity; a
      reader that skips the value has exactly the other bytes before it. */
  method PassOver(v: Value, others: seq<byte>, initialCapacity: nat) returns (ok: bool, ahead: seq<byte>)
    requires WellFormed(v) && NoFalseEnd(v) && |Encode(v)| < U64
    ensures ok && ahead == others
  {
    hide WellFormed, NoFalseEnd, Encode, Skip, TypeOf, At;
    var data := Collect(v, others, initialCapacity);
    var r := new Reader(data);
    AtIsSlice(data, 0, Encode(v));
    SkipFindsEnd(data, 0, v);
    ok := SkipValue(r, TypeOf(v));
    ahead := data[r.position..];
  }
}
