/** The protobuf wire format (src/serialization/protobuf.c): varints, zig-zag, fixed words,
    length-delimited data, field headers, and skipping what is not understood. */
module Protobuf {
  import opened Bytes
  import opened Bits
  import opened Buffers

  const VARINT: nat := 0
  const FIXED64: nat := 1
  const LENGTH_DELIMITED: nat := 2
  const FIXED32: nat := 5

  // ---------------------------------------------------------------- zig-zag

  /** The `w`-bit two's complement word of a signed number, and back. */
  function ToWord(w: nat, n: int): (u: int) {
    if n < 0 then n + Pow2(w) else n
  }

  function ToSigned(w: nat, u: nat): int
    requires w > 0
  {
    if u < Pow2(w - 1) then u else u - Pow2(w)
  }

  predicate IsSigned(w: nat, n: int)
    requires w > 0
  {
    -(Pow2(w - 1) as int) <= n < Pow2(w - 1)
  }

  /** `u << 1` in `w` bits: the top bit falls off. */
  lemma ShiftOnce(w: nat, u: nat)
    requires u < Pow2(w)
    ensures ShiftLeft(w, u, 1) == if 2 * u < Pow2(w) then 2 * u else 2 * u - Pow2(w)
  {
    assert Pow2(1) == 2;
    hide Pow2;
    if 2 * u < Pow2(w) {
      SmallModulo(2 * u, Pow2(w));
    } else {
      RemainderIs(2 * u, Pow2(w), 1, 2 * u - Pow2(w));
    }
  }

  /** `(n << 1) ^ (n >> (w - 1))`: the arithmetic shift leaves a word of sign bits. */
  function Zigzag(w: nat, n: int): nat
    requires w > 0 && IsSigned(w, n)
  {
    Xor(w, ShiftLeft(w, ToWord(w, n), 1), if n < 0 then Pow2(w) - 1 else 0)
  }

  /** `(u >> 1) ^ -(u & 1)` */
  function Unzigzag(w: nat, u: nat): int
    requires w > 0 && u < Pow2(w)
  {
    ToSigned(w, Xor(w, u / 2, if u % 2 == 1 then Pow2(w) - 1 else 0))
  }

  lemma ZigzagNonNegative(w: nat, n: nat)
    requires w > 0 && IsSigned(w, n)
    ensures Zigzag(w, n) == 2 * n
  {
    assert Pow2(w) == 2 * Pow2(w - 1);
    hide Pow2, Xor, ShiftLeft;
    ShiftOnce(w, n);
    XorZero(w, 2 * n);
  }

  lemma ZigzagNegative(w: nat, n: int)
    requires w > 0 && IsSigned(w, n) && n < 0
    ensures Zigzag(w, n) == -2 * n - 1
  {
    assert Pow2(w) == 2 * Pow2(w - 1);
    hide Pow2, Xor, ShiftLeft;
    ShiftOnce(w, n + Pow2(w));
    XorOnes(w, 2 * n + Pow2(w));
  }

  /** Signed numbers of small magnitude become small unsigned ones: 0, -1, 1, -2 go to 0, 1, 2, 3. */
  lemma ZigzagMeaning(w: nat, n: int)
    requires w > 0 && IsSigned(w, n)
    ensures Zigzag(w, n) == if n >= 0 then 2 * n else -2 * n - 1
    ensures Zigzag(w, n) < Pow2(w)
  {
    hide Zigzag;
    assert Pow2(w) == 2 * Pow2(w - 1);
    if n >= 0 {
      ZigzagNonNegative(w, n);
    } else {
      ZigzagNegative(w, n);
    }
  }

  lemma UnzigzagMeaning(w: nat, u: nat)
    requires w > 0 && u < Pow2(w)
    ensures Unzigzag(w, u) == if u % 2 == 0 then u / 2 else -(u / 2) - 1
    ensures IsSigned(w, Unzigzag(w, u))
  {
    assert Pow2(w) == 2 * Pow2(w - 1);
    if u % 2 == 0 {
      XorZero(w, u / 2);
    } else {
      XorOnes(w, u / 2);
    }
  }

  /** The two are inverse bijections between `w`-bit signed and unsigned numbers. */
  lemma ZigzagRoundTrip(w: nat, n: int)
    requires w > 0 && IsSigned(w, n)
    ensures Zigzag(w, n) < Pow2(w) && Unzigzag(w, Zigzag(w, n)) == n
  {
    hide Zigzag, Unzigzag, Pow2, IsSigned;
    ZigzagMeaning(w, n);
    UnzigzagMeaning(w, Zigzag(w, n));
  }

  lemma UnzigzagRoundTrip(w: nat, u: nat)
    requires w > 0 && u < Pow2(w)
    ensures IsSigned(w, Unzigzag(w, u)) && Zigzag(w, Unzigzag(w, u)) == u
  {
    hide Zigzag, Unzigzag, Pow2, IsSigned;
    UnzigzagMeaning(w, u);
    ZigzagMeaning(w, Unzigzag(w, u));
  }

  // ---------------------------------------------------------------- fields and their encoding

  datatype Kind = Unsigned | Sint32 | Sint64 | Fixed32 | Fixed64 | Delimited

  datatype Payload = Number(kind: Kind, value: int) | Data(bytes: seq<byte>)

  datatype Field = Field(number: nat, payload: Payload)

  function KindOf(p: Payload): Kind {
    match p
    case Number(kind, _) => kind
    case Data(_) => Delimited
  }

  function WireType(kind: Kind): nat {
    match kind
    case Unsigned | Sint32 | Sint64 => VARINT
    case Fixed32 => FIXED32
    case Fixed64 => FIXED64
    case Delimited => LENGTH_DELIMITED
  }

  /** The payload fits the C type of the write function's argument. */
  ghost predicate WellFormed(p: Payload) {
    match p
    case Number(kind, v) =>
      && kind != Delimited
      && (kind == Unsigned || kind == Fixed64 ==> 0 <= v < U64)
      && (kind == Fixed32 ==> 0 <= v < U32)
      && (kind == Sint32 ==> IsSigned(32, v))
      && (kind == Sint64 ==> IsSigned(64, v))
    case Data(bytes) => |bytes| < U64
  }

  /** `(field_number << 3) | wire_type` in 32 bits. */
  function Tag(number: nat, wire: nat): nat {
    Or(32, ShiftLeft(32, number, 3), wire)
  }

  function Encode(p: Payload): seq<byte>
    requires WellFormed(p)
  {
    match p
    case Number(Unsigned, v) => Varint(v)
    case Number(Sint32, v) => Varint(Zigzag(32, v))
    case Number(Sint64, v) => Varint(Zigzag(64, v))
    case Number(Fixed32, v) => LittleEndian(v, 4)
    case Number(Fixed64, v) => LittleEndian(v, 8)
    case Data(bytes) => Varint(|bytes|) + bytes
  }

  function EncodeField(f: Field): seq<byte>
    requires WellFormed(f.payload)
  {
    Varint(Tag(f.number, WireType(KindOf(f.payload)))) + Encode(f.payload)
  }

  function EncodeFields(fs: seq<Field>): seq<byte>
    requires forall f :: f in fs ==> WellFormed(f.payload)
  {
    if fs == [] then [] else EncodeField(fs[0]) + EncodeFields(fs[1..])
  }

  // ---------------------------------------------------------------- reading

  datatype Header = Header(ok: bool, number: nat, wire: nat, position: nat)

  datatype DataRead = DataRead(ok: bool, bytes: seq<byte>, position: nat)

  datatype FieldRead = FieldRead(ok: bool, field: Field, position: nat)

  datatype Outcome = Outcome(ok: bool, position: nat)

  /** A tag's number is cut to 32 bits. */
  function HeaderAt(buf: seq<byte>, pos: nat): (h: Header)
    ensures h.position >= pos
    ensures h.ok ==> h.position <= |buf| && h.wire < 8
  {
    var tag := ReadVarint(buf, pos, 0, 0, 64);
    Header(tag.ok, tag.value / 8 % U32, tag.value % 8, tag.position)
  }

  function WordAt(buf: seq<byte>, pos: nat, n: nat): (r: VarintRead)
    ensures r.position >= pos
    ensures r.ok ==> r.position <= |buf|
  {
    if pos + n > |buf| then VarintRead(false, 0, pos)
    else VarintRead(true, LittleEndianValue(buf[pos..pos + n]), pos + n)
  }

  function DelimitedAt(buf: seq<byte>, pos: nat): (r: DataRead)
    ensures r.position >= pos
    ensures r.ok ==> r.position <= |buf|
  {
    var length := ReadVarint(buf, pos, 0, 0, 64);
    if !length.ok || length.value > |buf| - length.position then DataRead(false, [], length.position)
    else DataRead(true, buf[length.position..length.position + length.value], length.position + length.value)
  }

  /** `mp_protobuf_read_*` by the kind the reader expects; a sint32 is cut to 32 bits. */
  function PayloadAt(buf: seq<byte>, pos: nat, kind: Kind): (r: (bool, Payload, nat))
    ensures r.2 >= pos
    ensures r.0 ==> r.2 <= |buf|
  {
    match kind
    case Unsigned => var v := ReadVarint(buf, pos, 0, 0, 64); (v.ok, Number(Unsigned, v.value), v.position)
    case Sint32 =>
      var v := ReadVarint(buf, pos, 0, 0, 64);
      WordSizes();
      (v.ok, Number(Sint32, Unzigzag(32, v.value % U32)), v.position)
    case Sint64 =>
      var v := ReadVarint(buf, pos, 0, 0, 64);
      WordSizes();
      (v.ok, Number(Sint64, Unzigzag(64, v.value % U64)), v.position)
    case Fixed32 => var v := WordAt(buf, pos, 4); (v.ok, Number(Fixed32, v.value), v.position)
    case Fixed64 => var v := WordAt(buf, pos, 8); (v.ok, Number(Fixed64, v.value), v.position)
    case Delimited => var d := DelimitedAt(buf, pos); (d.ok, Data(d.bytes), d.position)
  }

  /** One turn of a reader's loop: header, then the payload the header announces. */
  function FieldAt(buf: seq<byte>, pos: nat, kind: Kind): (r: FieldRead)
    ensures r.position >= pos
    ensures r.ok ==> r.position <= |buf|
  {
    var h := HeaderAt(buf, pos);
    if !h.ok || h.wire != WireType(kind) then FieldRead(false, Field(h.number, Data([])), h.position)
    else
      var p := PayloadAt(buf, h.position, kind);
      FieldRead(p.0, Field(h.number, p.1), p.2)
  }

  datatype FieldsRead = FieldsRead(ok: bool, fields: seq<Field>, position: nat)

  function FieldsAt(buf: seq<byte>, pos: nat, kinds: seq<Kind>): FieldsRead
    decreases |kinds|
  {
    if kinds == [] then FieldsRead(true, [], pos)
    else
      var first := FieldAt(buf, pos, kinds[0]);
      if !first.ok then FieldsRead(false, [], first.position)
      else
        var rest := FieldsAt(buf, first.position, kinds[1..]);
        FieldsRead(rest.ok, [first.field] + rest.fields, rest.position)
  }

  /** Of a varint that is too wide for a sint32 the low 32 bits are taken: half of them if they are
      even, and one less than minus half if they are odd. */
  lemma WideSint32(buf: seq<byte>, pos: nat, v: nat)
    requires v < U64 && At(buf, pos, Varint(v))
    ensures var r := PayloadAt(buf, pos, Sint32); var low := v % U32;
      && r.0 && r.2 == pos + |Varint(v)|
      && r.1 == Number(Sint32, if low % 2 == 0 then low / 2 else -(low / 2) - 1)
  {
    hide ReadVarint, Unzigzag, Pow2, Group, At;
    WordSizes();
    ReadsBack(buf, pos, v, 64);
    UnzigzagMeaning(32, v % U32);
  }

  // ---------------------------------------------------------------- skipping

  function SkipPayload(buf: seq<byte>, pos: nat, wire: nat): (r: Outcome)
    ensures r.position >= pos
    ensures r.ok ==> r.position <= |buf|
  {
    if wire == VARINT then
      var v := ReadVarint(buf, pos, 0, 0, 64); Outcome(v.ok, v.position)
    else if wire == FIXED64 then
      var v := WordAt(buf, pos, 8); Outcome(v.ok, v.position)
    else if wire == LENGTH_DELIMITED then
      var d := DelimitedAt(buf, pos); Outcome(d.ok, d.position)
    else if wire == FIXED32 then
      var v := WordAt(buf, pos, 4); Outcome(v.ok, v.position)
    else Outcome(false, pos)
  }

  function SkipUnknown(buf: seq<byte>, pos: nat): (r: Outcome)
    ensures r.position >= pos
    ensures r.ok ==> r.position <= |buf|
  {
    var h := HeaderAt(buf, pos);
    if h.ok then SkipPayload(buf, h.position, h.wire) else Outcome(false, h.position)
  }

  function SkipMany(buf: seq<byte>, pos: nat, k: nat): Outcome
    decreases k
  {
    if k == 0 then Outcome(true, pos)
    else
      var r := SkipUnknown(buf, pos);
      if r.ok then SkipMany(buf, r.position, k - 1) else r
  }

  // ---------------------------------------------------------------- the wire types in numbers

  lemma LowBitsOfVarint(v: nat)
    ensures Varint(v)[0] % 8 == v % 8
  {
    assert Varint(v)[0] % 128 == v % 128;
  }

  /** The low three bits of a field's first byte, by what the field holds: 0 before a varint, 1 before
      eight bytes, 2 before a length and as many bytes, 5 before four bytes. */
  lemma FirstByteOfField(f: Field)
    requires WellFormed(f.payload) && f.number < U32
    ensures var low := EncodeField(f)[0] % 8;
      match f.payload
      case Number(Fixed64, v) => low == 1 && |Encode(f.payload)| == 8
      case Number(Fixed32, v) => low == 5 && |Encode(f.payload)| == 4
      case Number(_, v) => low == 0
      case Data(bytes) => low == 2 && Encode(f.payload) == Varint(|bytes|) + bytes
  {
    hide Varint, Tag, Zigzag, LittleEndian, Encode;
    var wire := WireType(KindOf(f.payload));
    TagBits(f.number, wire);
    LowBitsOfVarint(Tag(f.number, wire));
    PayloadLength(f.payload);
  }

  lemma PayloadLength(p: Payload)
    requires WellFormed(p)
    ensures p.Number? && p.kind == Fixed64 ==> |Encode(p)| == 8
    ensures p.Number? && p.kind == Fixed32 ==> |Encode(p)| == 4
    ensures p.Data? ==> Encode(p) == Varint(|p.bytes|) + p.bytes
  {}

  /** A reader that expects a kind takes a field only if its header has that kind's wire type. */
  lemma WireTypeTaken(buf: seq<byte>, pos: nat, kind: Kind)
    requires FieldAt(buf, pos, kind).ok
    ensures HeaderAt(buf, pos).wire == match kind
              case Fixed64 => 1
              case Fixed32 => 5
              case Delimited => 2
              case _ => 0
  {
    hide PayloadAt, HeaderAt;
  }

  /** What a skip passes over, by the number of the wire type: a varint for 0, eight bytes for 1, a
      length and as many bytes for 2, four bytes for 5; it fails on the spot if they are not there, and
      for every other number. */
  lemma SkippedByWireType(buf: seq<byte>, pos: nat, wire: nat)
    requires pos <= |buf|
    ensures wire == 0 ==> var v := ReadVarint(buf, pos, 0, 0, 64); SkipPayload(buf, pos, wire) == Outcome(v.ok, v.position)
    ensures wire == 1 ==> SkipPayload(buf, pos, wire) == if pos + 8 <= |buf| then Outcome(true, pos + 8) else Outcome(false, pos)
    ensures wire == 2 ==>
      var n := ReadVarint(buf, pos, 0, 0, 64);
      SkipPayload(buf, pos, wire) == if n.ok && n.position + n.value <= |buf| then Outcome(true, n.position + n.value)
                                     else Outcome(false, n.position)
    ensures wire == 5 ==> SkipPayload(buf, pos, wire) == if pos + 4 <= |buf| then Outcome(true, pos + 4) else Outcome(false, pos)
    ensures wire !in {0, 1, 2, 5} ==> SkipPayload(buf, pos, wire) == Outcome(false, pos)
  {
    hide ReadVarint;
  }

  // ---------------------------------------------------------------- round trips

  /** A field number survives its header exactly when it has at most 29 bits. */
  lemma HeaderRoundTripIff(buf: seq<byte>, pos: nat, number: nat, wire: nat)
    requires number < U32 && wire < 8
    requires At(buf, pos, Varint(Tag(number, wire)))
    ensures HeaderAt(buf, pos).ok && HeaderAt(buf, pos).wire == wire
    ensures HeaderAt(buf, pos).position == pos + |Varint(Tag(number, wire))|
    ensures HeaderAt(buf, pos).number == number <==> number < Pow2(29)
  {
    TagBits(number, wire);
    WordSizes();
    hide ReadVarint, At, Pow2, Group, Tag;
    ReadsBack(buf, pos, Tag(number, wire), 64);
  }

  lemma ShiftThree(number: nat)
    ensures ShiftLeft(32, number, 3) == (number * 8) % U32
  {
    assert Pow2(3) == 8;
    WordSizes();
  }

  /** The shifted number has three clear bits, so joining a three-bit wire type adds it. */
  lemma TagIsSum(number: nat, wire: nat)
    requires wire < 8
    ensures Tag(number, wire) == (number * 8) % U32 + wire
  {
    assert Pow2(3) == 8;
    hide Or, Pow2, ShiftLeft;
    OrCommutes(32, ShiftLeft(32, number, 3), wire);
    OrShifted(32, wire, number, 3);
    ShiftThree(number);
  }

  lemma TagArithmetic(number: nat, wire: nat, tag: nat)
    requires number < U32 && wire < 8 && tag == (number * 8) % U32 + wire
    ensures tag < U64 && tag % 8 == wire
    ensures tag / 8 % U32 == number <==> number < 0x2000_0000
  {
  }

  /** What is read off the tag is the wire type, and the number if that has at most 29 bits. */
  lemma TagBits(number: nat, wire: nat)
    requires number < U32 && wire < 8
    ensures Tag(number, wire) < U64
    ensures Tag(number, wire) % 8 == wire
    ensures Tag(number, wire) / 8 % U32 == number <==> number < Pow2(29)
  {
    WordSizes();
    hide Pow2, Tag;
    TagIsSum(number, wire);
    TagArithmetic(number, wire, Tag(number, wire));
  }

  lemma WordRoundTrip(buf: seq<byte>, pos: nat, v: nat, n: nat)
    requires n > 0 && v < Pow2(8 * n) && At(buf, pos, LittleEndian(v, n))
    ensures WordAt(buf, pos, n) == VarintRead(true, v, pos + n)
  {
    AtIsSlice(buf, pos, LittleEndian(v, n));
    LittleEndianRoundTrip(v, n);
  }

  lemma DelimitedRoundTrip(buf: seq<byte>, pos: nat, data: seq<byte>)
    requires |data| < U64 && At(buf, pos, Varint(|data|) + data)
    ensures DelimitedAt(buf, pos) == DataRead(true, data, pos + |Varint(|data|)| + |data|)
  {
    WordSizes();
    hide Pow2, Group;
    var n := Varint(|data|);
    AtSplit(buf, pos, n, data);
    ReadsBack(buf, pos, |data|, 64);
    AtIsSlice(buf, pos + |n|, data);
  }

  lemma PayloadRoundTrip(buf: seq<byte>, pos: nat, p: Payload)
    requires WellFormed(p) && At(buf, pos, Encode(p))
    ensures PayloadAt(buf, pos, KindOf(p)) == (true, p, pos + |Encode(p)|)
    ensures SkipPayload(buf, pos, WireType(KindOf(p))) == Outcome(true, pos + |Encode(p)|)
  {
    hide Pow2, Group, ReadVarint, At, Zigzag, Unzigzag, WordAt, DelimitedAt, LittleEndian;
    WordSizes();
    match p
    case Number(Unsigned, v) => ReadsBack(buf, pos, v, 64);
    case Number(Sint32, v) =>
      ZigzagRoundTrip(32, v);
      ReadsBack(buf, pos, Zigzag(32, v), 64);
    case Number(Sint64, v) =>
      ZigzagRoundTrip(64, v);
      ReadsBack(buf, pos, Zigzag(64, v), 64);
    case Number(Fixed32, v) => WordRoundTrip(buf, pos, v, 4);
    case Number(Fixed64, v) => WordRoundTrip(buf, pos, v, 8);
    case Data(data) => DelimitedRoundTrip(buf, pos, data);
  }

  lemma FieldRoundTrip(buf: seq<byte>, pos: nat, f: Field)
    requires WellFormed(f.payload) && f.number < Pow2(29) && At(buf, pos, EncodeField(f))
    ensures FieldAt(buf, pos, KindOf(f.payload)) == FieldRead(true, f, pos + |EncodeField(f)|)
    ensures SkipUnknown(buf, pos) == Outcome(true, pos + |EncodeField(f)|)
  {
    hide Pow2, Group, ReadVarint, At, HeaderAt, PayloadAt, SkipPayload, Encode, Tag;
    var tag := Tag(f.number, WireType(KindOf(f.payload)));
    AtSplit(buf, pos, Varint(tag), Encode(f.payload));
    WordSizes();
    HeaderRoundTripIff(buf, pos, f.number, WireType(KindOf(f.payload)));
    PayloadRoundTrip(buf, pos + |Varint(tag)|, f.payload);
  }

  function Kinds(fs: seq<Field>): seq<Kind> {
    if fs == [] then [] else [KindOf(fs[0].payload)] + Kinds(fs[1..])
  }

  /** Whatever surrounds them, written fields are read back header by header as the same list. */
  lemma {:induction false} FieldsRoundTrip(buf: seq<byte>, pos: nat, fs: seq<Field>)
    requires forall f :: f in fs ==> WellFormed(f.payload) && f.number < Pow2(29)
    requires At(buf, pos, EncodeFields(fs))
    ensures FieldsAt(buf, pos, Kinds(fs)) == FieldsRead(true, fs, pos + |EncodeFields(fs)|)
    decreases |fs|
  {
    hide Pow2, WellFormed, FieldAt, EncodeField, At;
    if fs != [] {
      AtSplit(buf, pos, EncodeField(fs[0]), EncodeFields(fs[1..]));
      FieldRoundTrip(buf, pos, fs[0]);
      FieldsRoundTrip(buf, pos + |EncodeField(fs[0])|, fs[1..]);
    }
  }

  /** Skipping the first `k` fields unread leaves the reader where field `k` begins. */
  lemma {:induction false} SkipPrefix(buf: seq<byte>, pos: nat, fs: seq<Field>, k: nat)
    requires forall f :: f in fs ==> WellFormed(f.payload) && f.number < Pow2(29)
    requires At(buf, pos, EncodeFields(fs)) && k <= |fs|
    ensures SkipMany(buf, pos, k) == Outcome(true, pos + |EncodeFields(fs[..k])|)
    ensures At(buf, pos + |EncodeFields(fs[..k])|, EncodeFields(fs[k..]))
    decreases k
  {
    hide Pow2, WellFormed, FieldAt, EncodeField, At, SkipUnknown;
    if k > 0 {
      AtSplit(buf, pos, EncodeField(fs[0]), EncodeFields(fs[1..]));
      FieldRoundTrip(buf, pos, fs[0]);
      SkipPrefix(buf, pos + |EncodeField(fs[0])|, fs[1..], k - 1);
      assert fs[..k][1..] == fs[1..][..k - 1];
      assert fs[1..][k - 1..] == fs[k..];
    } else {
      assert fs[0..] == fs;
    }
  }

  // ---------------------------------------------------------------- sizes

  /** `mp_protobuf_varint_size` counts the bytes the writer would write. */
  method VarintSize(value: nat) returns (size: nat)
    ensures size == |Varint(value)|
  {
    size := 1;
    var rest := value;
    while rest >= 0x80
      invariant size + |Varint(rest)| == 1 + |Varint(value)|
    {
      rest := rest / 128;
      size := size + 1;
    }
  }

  method FieldHeaderSize(number: nat, wire: nat) returns (size: nat)
    ensures size == |Varint(Tag(number, wire))|
  {
    size := VarintSize(Tag(number, wire));
  }

  /** The size announced for a length-delimited field is the size of what is written. */
  method DelimitedSize(number: nat, data: seq<byte>) returns (size: nat)
    requires |data| < U64
    ensures WellFormed(Data(data)) && size == |EncodeField(Field(number, Data(data)))|
  {
    WordSizes();
    var header := FieldHeaderSize(number, LENGTH_DELIMITED);
    var length := VarintSize(|data|);
    size := header + length + |data|;
  }

  // ---------------------------------------------------------------- writing

  /** Asks for ten bytes, which hold any 64-bit varint, then stores the groups. */
  method WriteVarint(w: Writer, value: nat)
    requires w.Valid() && value < U64 && w.Room(|Varint(value)|)
    modifies w, w.buffer
    ensures w.Valid() && w.Regrown()
    ensures w.Contents() == old(w.Contents()) + Varint(value)
  {
    VarintFitsTen(value);
    w.EnsureCapacity(10);
    var rest := value;
    while rest >= 0x80
      invariant w.Valid() && w.Regrown()
      invariant w.position + |Varint(rest)| <= w.buffer.Length
      invariant w.Contents() + Varint(rest) == old(w.Contents()) + Varint(value)
    {
      MoreGroups(64, rest);
      w.Store(Or(64, rest, 0x80) % 256);
      rest := rest / 128;
    }
    w.Store(rest);
  }

  method WriteHeader(w: Writer, number: nat, wire: nat)
    requires w.Valid() && wire < 8 && w.Room(|Varint(Tag(number, wire))|)
    modifies w, w.buffer
    ensures w.Valid() && w.Regrown()
    ensures w.Contents() == old(w.Contents()) + Varint(Tag(number, wire))
  {
    hide Tag, Varint;
    TagIsSum(number, wire);
    WriteVarint(w, Tag(number, wire));
  }

  /** A writer that cannot grow refuses data that does not fit after the length is written. */
  method WriteDelimited(w: Writer, data: seq<byte>) returns (ok: bool)
    requires w.Valid() && |data| < U64 && w.Room(|Varint(|data|)|)
    modifies w, w.buffer
    ensures w.Valid() && w.Regrown()
    ensures ok == old(w.Room(|Varint(|data|)| + |data|))
    ensures w.Contents() == old(w.Contents()) + Varint(|data|) + (if ok then data else [])
  {
    WriteVarint(w, |data|);
    ok := w.WriteData(data);
  }

  /** A header and the payload behind it, as a client writes one field. */
  method WriteField(w: Writer, f: Field)
    requires w.Valid() && WellFormed(f.payload) && w.Room(|EncodeField(f)|)
    modifies w, w.buffer
    ensures w.Valid() && w.Regrown()
    ensures w.Contents() == old(w.Contents()) + EncodeField(f)
  {
    hide Varint, Tag, Zigzag, Pow2, LittleEndian;
    WriteHeader(w, f.number, WireType(KindOf(f.payload)));
    WritePayload(w, f.payload);
  }

  method WritePayload(w: Writer, p: Payload)
    requires w.Valid() && WellFormed(p) && w.Room(|Encode(p)|)
    modifies w, w.buffer
    ensures w.Valid() && w.Regrown()
    ensures w.Contents() == old(w.Contents()) + Encode(p)
  {
    hide Varint, Zigzag, Pow2, LittleEndian;
    WordSizes();
    match p
    case Number(Unsigned, v) => WriteVarint(w, v);
    case Number(Sint32, v) =>
      ZigzagMeaning(32, v);
      WriteVarint(w, Zigzag(32, v));
    case Number(Sint64, v) =>
      ZigzagMeaning(64, v);
      WriteVarint(w, Zigzag(64, v));
    case Number(Fixed32, v) => w.WriteWord(v, 4);
    case Number(Fixed64, v) => w.WriteWord(v, 8);
    case Data(data) => var ok := WriteDelimited(w, data);
  }

  method WriteFields(w: Writer, fs: seq<Field>)
    requires forall f :: f in fs ==> WellFormed(f.payload)
    requires w.Valid() && w.Room(|EncodeFields(fs)|)
    modifies w, w.buffer
    ensures w.Valid() && w.Regrown()
    ensures w.Contents() == old(w.Contents()) + EncodeFields(fs)
    decreases |fs|
  {
    hide WellFormed, EncodeField;
    if fs != [] {
      WriteField(w, fs[0]);
      WriteFields(w, fs[1..]);
    }
  }

  // ---------------------------------------------------------------- the read and skip functions

  method ReadHeader(r: Reader) returns (ok: bool, number: nat, wire: nat)
    modifies r
    ensures Header(ok, number, wire, r.position) == HeaderAt(r.buffer, old(r.position))
  {
    var tag;
    ok, tag := r.ReadVarint(64);
    LowThree(tag);
    number, wire := tag / 8 % U32, And(64, tag, 7);
  }

  lemma LowThree(tag: nat)
    ensures And(64, tag, 7) == tag % 8
  {
    assert Pow2(3) == 8;
    AndLowMask(64, tag, 3);
    LowBitsIsRemainder(tag, 3);
  }

  /** The first bytes of a word, and one more of them. */
  lemma OneMoreByte(word: seq<byte>, i: nat)
    requires i < |word|
    ensures Or(8 * |word|, LittleEndianValue(word[..i]), ShiftLeft(8 * |word|, word[i], 8 * i)) == LittleEndianValue(word[..i + 1])
  {
    hide Or, ShiftLeft, Pow2, LittleEndianValue;
    var w := 8 * |word|;
    ValueFits(word[..i]);
    OrShifted(w, LittleEndianValue(word[..i]), word[i], 8 * i);
    ShiftKeeps(w, word[i], 8 * i);
    ByteFits(word[i], w - 8 * i);
    LastByte(word[..i], word[i]);
    assert word[..i + 1] == word[..i] + [word[i]];
  }

  lemma ByteFits(b: byte, k: nat)
    requires k >= 8
    ensures b % Pow2(k) == b
  {
    assert Pow2(8) == 256;
    hide Pow2;
    Pow2Strict(8, k);
    SmallModulo(b, Pow2(k));
  }

  lemma {:induction false} ValueFits(s: seq<byte>)
    ensures LittleEndianValue(s) < Pow2(8 * |s|)
    decreases |s|
  {
    if s != [] {
      ValueFits(s[1..]);
      Pow2Add(8, 8 * |s[1..]|);
      assert Pow2(8) == 256;
    }
  }

  lemma {:induction false} LastByte(s: seq<byte>, b: byte)
    ensures LittleEndianValue(s + [b]) == LittleEndianValue(s) + b * Pow2(8 * |s|)
    decreases |s|
  {
    if s == [] {
      assert s + [b] == [b];
    } else {
      assert (s + [b])[1..] == s[1..] + [b];
      LastByte(s[1..], b);
      var n := |s[1..]|;
      Pow2Add(8, 8 * n);
      assert Pow2(8) == 256;
      assert 256 * (b * Pow2(8 * n)) == b * (256 * Pow2(8 * n));
    }
  }

  /** The byte-by-byte shift-and-or of `mp_protobuf_read_fixed32` and `_fixed64`. */
  method ReadWord(r: Reader, n: nat) returns (ok: bool, value: nat)
    modifies r
    ensures VarintRead(ok, value, r.position) == WordAt(r.buffer, old(r.position), n)
  {
    if r.position + n > |r.buffer| {
      return false, 0;
    }
    ghost var word := r.buffer[r.position..r.position + n];
    hide LittleEndianValue, Or, ShiftLeft;
    value := 0;
    NoBytes();
    for i := 0 to n
      invariant r.position == old(r.position) + i
      invariant value == LittleEndianValue(word[..i])
    {
      OneMoreByte(word, i);
      value := Or(8 * n, value, ShiftLeft(8 * n, r.buffer[r.position], 8 * i));
      r.position := r.position + 1;
    }
    assert word[..n] == word;
    return true, value;
  }

  lemma NoBytes()
    ensures LittleEndianValue([]) == 0
  {
  }

  method ReadDelimited(r: Reader) returns (ok: bool, data: seq<byte>)
    modifies r
    ensures DataRead(ok, data, r.position) == DelimitedAt(r.buffer, old(r.position))
  {
    var length;
    ok, length := r.ReadVarint(64);
    if !ok || length > |r.buffer| - r.position {
      return false, [];
    }
    data := r.buffer[r.position..r.position + length];
    r.position := r.position + length;
  }

  method ReadPayload(r: Reader, kind: Kind) returns (ok: bool, p: Payload)
    modifies r
    ensures (ok, p, r.position) == PayloadAt(r.buffer, old(r.position), kind)
  {
    hide Pow2, Group, Unzigzag;
    WordSizes();
    var v, data;
    match kind
    case Unsigned => ok, v := r.ReadVarint(64); p := Number(Unsigned, v);
    case Sint32 => ok, v := r.ReadVarint(64); p := Number(Sint32, Unzigzag(32, v % U32));
    case Sint64 => ok, v := r.ReadVarint(64); p := Number(Sint64, Unzigzag(64, v % U64));
    case Fixed32 => ok, v := ReadWord(r, 4); p := Number(Fixed32, v);
    case Fixed64 => ok, v := ReadWord(r, 8); p := Number(Fixed64, v);
    case Delimited => ok, data := ReadDelimited(r); p := Data(data);
  }

  /** The loop a client runs over a message, told by its schema which kinds to expect. */
  method ReadFields(r: Reader, kinds: seq<Kind>) returns (ok: bool, fields: seq<Field>)
    modifies r
    ensures FieldsRead(ok, fields, r.position) == FieldsAt(r.buffer, old(r.position), kinds)
    decreases |kinds|
  {
    hide HeaderAt, PayloadAt;
    if kinds == [] {
      return true, [];
    }
    var number, wire, p;
    ok, number, wire := ReadHeader(r);
    if !ok || wire != WireType(kinds[0]) {
      return false, [];
    }
    ok, p := ReadPayload(r, kinds[0]);
    if !ok {
      return false, [];
    }
    ok, fields := ReadFields(r, kinds[1..]);
    fields := [Field(number, p)] + fields;
  }

  /** `mp_protobuf_skip_field` */
  method SkipField(r: Reader, wire: nat) returns (ok: bool)
    requires r.position <= |r.buffer|
    modifies r
    ensures Outcome(ok, r.position) == SkipPayload(r.buffer, old(r.position), wire)
  {
    hide Pow2, Group;
    var v;
    if wire == VARINT {
      ok, v := r.ReadVarint(64);
    } else if wire == FIXED64 {
      ok, v := ReadWord(r, 8);
    } else if wire == LENGTH_DELIMITED {
      ok, v := r.ReadVarint(64);
      if ok && v > |r.buffer| - r.position {
        return false;
      }
      if ok {
        r.position := r.position + v;
      }
    } else if wire == FIXED32 {
      ok, v := ReadWord(r, 4);
    } else {
      ok := false;
    }
  }

  /** `mp_protobuf_skip_unknown` */
  method SkipUnknownField(r: Reader) returns (ok: bool)
    requires r.position <= |r.buffer|
    modifies r
    ensures Outcome(ok, r.position) == SkipUnknown(r.buffer, old(r.position))
  {
    hide Pow2, Group;
    var number, wire;
    ok, number, wire := ReadHeader(r);
    if ok {
      ok := SkipField(r, wire);
    }
  }

  // ---------------------------------------------------------------- end to end

  /** A message is written to a dynamic writer of any initial capacity, a reader is put on what was
      written, skips the first `k` fields without knowing them and reads the others. */
  method Transmit(fs: seq<Field>, k: nat, initialCapacity: nat) returns (ok: bool, fields: seq<Field>)
    requires forall f :: f in fs ==> WellFormed(f.payload) && f.number < Pow2(29)
    requires k <= |fs|
    ensures ok && fields == fs[k..]
  {
    hide Pow2, WellFormed, EncodeFields, SkipUnknown, FieldsAt;
    var w := new Writer.Dynamic(initialCapacity);
    WriteFields(w, fs);
    var r := new Reader(w.Contents());
    ghost var sent := EncodeFields(fs);
    assert r.buffer == sent;
    AtIsSlice(sent, 0, sent);
    SkipPrefix(sent, 0, fs, k);
    for i := 0 to k
      invariant SkipMany(sent, r.position, k - i) == SkipMany(sent, 0, k)
      invariant r.position <= |sent|
    {
      ok := SkipUnknownField(r);
    }
    FieldsRoundTrip(sent, r.position, fs[k..]);
    ok, fields := ReadFields(r, Kinds(fs[k..]));
  }
}
