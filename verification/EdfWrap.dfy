/** The EDF skipper on 64-bit positions. `mp_edf_skip_value` adds a length from the bytes to a
    `size_t` without a look at what remains (src/serialization/edf.c): the sum can wrap, and move the
    position back. */
module EdfWrap {
  import opened Bytes
  import opened Edf

  datatype Option<T> = None | Some(value: T)

  /** The position behind `n` bytes. */
  function Advance(pos: nat, n: nat): nat {
    (pos + n) % U64
  }

  /** A step moves the position back exactly if its sum leaves the 64 bits. */
  lemma MovesBackIff(pos: nat, n: nat)
    requires pos < U64 && n < U64
    ensures Advance(pos, n) < pos <==> pos + n >= U64
    ensures pos + n < U64 ==> Advance(pos, n) == pos + n
  {
  }

  // ---------------------------------------------------------------- the skipper as it is

  /** `mp_edf_skip_value` with at most `fuel` nested calls and rounds; `None` when they do not do. */
  function SkipIn(buf: seq<byte>, pos: nat, ty: byte, fuel: nat): Option<Outcome>
    decreases fuel
  {
    if fuel == 0 then None
    else if ty == NULL then Some(Outcome(true, pos))
    else if Width(ty) > 0 then Some(Outcome(true, Advance(pos, Width(ty))))
    else if ty == STRING || ty == BYTES then
      var length := ReadVarint(buf, pos, 0, 0, 64);
      Some(if length.ok then Outcome(true, Advance(length.position, length.value)) else Outcome(false, length.position))
    else if ty == ARRAY then
      var h := ArrayHeaderAt(buf, pos);
      if h.ok then ElementsIn(buf, h.position, h.elementType, h.count, fuel - 1) else Some(Outcome(false, h.position))
    else if ty == OBJECT then
      var h := ObjectHeaderAt(buf, pos);
      if h.ok then FieldsIn(buf, h.position, fuel - 1) else Some(h)
    else Some(Outcome(false, pos))
  }

  function ElementsIn(buf: seq<byte>, pos: nat, ty: byte, count: nat, fuel: nat): Option<Outcome>
    decreases fuel
  {
    if fuel == 0 then None
    else if count == 0 then Some(Outcome(true, pos))
    else
      var first := SkipIn(buf, pos, ty, fuel - 1);
      if first.Some? && first.value.ok then ElementsIn(buf, first.value.position, ty, count - 1, fuel - 1) else first
  }

  function FieldsIn(buf: seq<byte>, pos: nat, fuel: nat): Option<Outcome>
    decreases fuel
  {
    if fuel == 0 then None
    else if pos >= |buf| then Some(Outcome(true, pos))
    else if buf[pos] == END_MARKER then Some(Outcome(true, pos + 1))
    else
      var r := FieldIn(buf, pos, fuel - 1);
      if r.Some? && r.value.ok then FieldsIn(buf, r.value.position, fuel - 1) else r
  }

  function FieldIn(buf: seq<byte>, pos: nat, fuel: nat): Option<Outcome>
    decreases fuel
  {
    if fuel == 0 then None
    else
      var h := FieldHeaderAt(buf, pos);
      if h.ok then SkipIn(buf, h.position, h.ty, fuel - 1) else Some(Outcome(false, h.position))
  }

  // ---------------------------------------------------------------- positions stay words

  lemma {:induction false} VarintStops(buf: seq<byte>, pos: nat, acc: nat, shift: nat, width: nat)
    requires pos < U64 && |buf| < U64
    ensures ReadVarint(buf, pos, acc, shift, width).position < U64
    decreases |buf| - pos
  {
    hide Group;
    if pos < |buf| && buf[pos] >= 128 && shift + 7 < width {
      VarintStops(buf, pos + 1, acc + Group(buf[pos], shift, width), shift + 7, width);
    }
  }

  lemma HeadersStop(buf: seq<byte>, pos: nat)
    requires pos < U64 && |buf| < U64
    ensures FieldHeaderAt(buf, pos).position < U64
    ensures ArrayHeaderAt(buf, pos).position < U64
    ensures ObjectHeaderAt(buf, pos).position < U64
    ensures ReadVarint(buf, pos, 0, 0, 64).position < U64
  {
    hide ReadVarint;
    VarintStops(buf, pos, 0, 0, 32);
    VarintStops(buf, pos, 0, 0, 64);
    if pos + 1 < |buf| {
      VarintStops(buf, pos + 2, 0, 0, 64);
    }
  }

  ghost predicate IsWord(r: Option<Outcome>) {
    r.Some? ==> r.value.position < U64
  }

  lemma {:induction false} SkipInIsWord(buf: seq<byte>, pos: nat, ty: byte, fuel: nat)
    requires pos < U64 && |buf| < U64
    ensures IsWord(SkipIn(buf, pos, ty, fuel))
    decreases fuel
  {
    hide ReadVarint, FieldHeaderAt, ArrayHeaderAt, ObjectHeaderAt;
    HeadersStop(buf, pos);
    if fuel > 0 {
      var a, o := ArrayHeaderAt(buf, pos), ObjectHeaderAt(buf, pos);
      ElementsInIsWord(buf, a.position, a.elementType, a.count, fuel - 1);
      FieldsInIsWord(buf, o.position, fuel - 1);
    }
  }

  lemma {:induction false} ElementsInIsWord(buf: seq<byte>, pos: nat, ty: byte, count: nat, fuel: nat)
    requires pos < U64 && |buf| < U64
    ensures IsWord(ElementsIn(buf, pos, ty, count, fuel))
    decreases fuel
  {
    hide SkipIn;
    if fuel > 0 && count > 0 {
      SkipInIsWord(buf, pos, ty, fuel - 1);
      var first := SkipIn(buf, pos, ty, fuel - 1);
      if first.Some? {
        ElementsInIsWord(buf, first.value.position, ty, count - 1, fuel - 1);
      }
    }
  }

  lemma {:induction false} FieldsInIsWord(buf: seq<byte>, pos: nat, fuel: nat)
    requires pos < U64 && |buf| < U64
    ensures IsWord(FieldsIn(buf, pos, fuel))
    decreases fuel
  {
    hide SkipIn, FieldHeaderAt;
    if fuel > 1 && pos < |buf| && buf[pos] != END_MARKER {
      HeadersStop(buf, pos);
      var h := FieldHeaderAt(buf, pos);
      SkipInIsWord(buf, h.position, h.ty, fuel - 2);
      var r := FieldIn(buf, pos, fuel - 1);
      if r.Some? {
        FieldsInIsWord(buf, r.value.position, fuel - 1);
      }
    }
  }

  // ---------------------------------------------------------------- more fuel, same result

  lemma {:induction false} SkipInMore(buf: seq<byte>, pos: nat, ty: byte, fuel: nat, more: nat)
    requires fuel <= more && SkipIn(buf, pos, ty, fuel).Some?
    ensures SkipIn(buf, pos, ty, more) == SkipIn(buf, pos, ty, fuel)
    decreases fuel
  {
    hide ReadVarint, FieldHeaderAt, ArrayHeaderAt, ObjectHeaderAt;
    if ty == ARRAY && ArrayHeaderAt(buf, pos).ok {
      var a := ArrayHeaderAt(buf, pos);
      ElementsInMore(buf, a.position, a.elementType, a.count, fuel - 1, more - 1);
    } else if ty == OBJECT && ObjectHeaderAt(buf, pos).ok {
      FieldsInMore(buf, ObjectHeaderAt(buf, pos).position, fuel - 1, more - 1);
    }
  }

  lemma {:induction false} ElementsInMore(buf: seq<byte>, pos: nat, ty: byte, count: nat, fuel: nat, more: nat)
    requires fuel <= more && ElementsIn(buf, pos, ty, count, fuel).Some?
    ensures ElementsIn(buf, pos, ty, count, more) == ElementsIn(buf, pos, ty, count, fuel)
    decreases fuel
  {
    hide SkipIn;
    if count > 0 {
      SkipInMore(buf, pos, ty, fuel - 1, more - 1);
      var first := SkipIn(buf, pos, ty, fuel - 1);
      if first.value.ok {
        ElementsInMore(buf, first.value.position, ty, count - 1, fuel - 1, more - 1);
      }
    }
  }

  lemma {:induction false} FieldsInMore(buf: seq<byte>, pos: nat, fuel: nat, more: nat)
    requires fuel <= more && FieldsIn(buf, pos, fuel).Some?
    ensures FieldsIn(buf, pos, more) == FieldsIn(buf, pos, fuel)
    decreases fuel
  {
    hide FieldIn;
    if pos < |buf| && buf[pos] != END_MARKER {
      FieldInMore(buf, pos, fuel - 1, more - 1);
      var r := FieldIn(buf, pos, fuel - 1);
      if r.value.ok {
        FieldsInMore(buf, r.value.position, fuel - 1, more - 1);
      }
    }
  }

  lemma {:induction false} FieldInMore(buf: seq<byte>, pos: nat, fuel: nat, more: nat)
    requires fuel <= more && FieldIn(buf, pos, fuel).Some?
    ensures FieldIn(buf, pos, more) == FieldIn(buf, pos, fuel)
    decreases fuel
  {
    hide SkipIn, FieldHeaderAt;
    var h := FieldHeaderAt(buf, pos);
    if h.ok {
      SkipInMore(buf, h.position, h.ty, fuel - 1, more - 1);
    }
  }

  // ---------------------------------------------------------------- without a wrap

  function Max(a: nat, b: nat): nat {
    if a < b then b else a
  }

  /** Fuel enough for a skip none of whose sums wraps: the code ends, with the outcome of `Skip`. */
  lemma {:induction false} SkipEnds(buf: seq<byte>, pos: nat, ty: byte) returns (fuel: nat)
    requires Skip(buf, pos, ty).position < U64
    ensures SkipIn(buf, pos, ty, fuel) == Some(Skip(buf, pos, ty))
    decreases Left(buf, pos), 0, 0
  {
    hide ReadVarint, FieldHeaderAt, ArrayHeaderAt, ObjectHeaderAt;
    fuel := 1;
    if ty == ARRAY && ArrayHeaderAt(buf, pos).ok {
      var a := ArrayHeaderAt(buf, pos);
      fuel := ElementsEnd(buf, a.position, a.elementType, a.count);
      fuel := fuel + 1;
    } else if ty == OBJECT && ObjectHeaderAt(buf, pos).ok {
      fuel := FieldsEnd(buf, ObjectHeaderAt(buf, pos).position);
      fuel := fuel + 1;
    }
  }

  lemma {:induction false} ElementsEnd(buf: seq<byte>, pos: nat, ty: byte, count: nat) returns (fuel: nat)
    requires SkipElements(buf, pos, ty, count).position < U64
    ensures ElementsIn(buf, pos, ty, count, fuel) == Some(SkipElements(buf, pos, ty, count))
    decreases Left(buf, pos), 1, count
  {
    hide Skip, SkipIn;
    fuel := 1;
    if count > 0 {
      var first := Skip(buf, pos, ty);
      var f := SkipEnds(buf, pos, ty);
      var g := 0;
      if first.ok {
        g := ElementsEnd(buf, first.position, ty, count - 1);
        ElementsInMore(buf, first.position, ty, count - 1, g, Max(f, g));
      }
      SkipInMore(buf, pos, ty, f, Max(f, g));
      fuel := Max(f, g) + 1;
    }
  }

  lemma {:induction false} FieldsEnd(buf: seq<byte>, pos: nat) returns (fuel: nat)
    requires SkipFields(buf, pos).position < U64
    ensures FieldsIn(buf, pos, fuel) == Some(SkipFields(buf, pos))
    decreases Left(buf, pos), 1, 0
  {
    hide SkipField, FieldIn;
    fuel := 1;
    if pos < |buf| && buf[pos] != END_MARKER {
      var r := SkipField(buf, pos);
      var f := FieldEnds(buf, pos);
      var g := 0;
      if r.ok {
        g := FieldsEnd(buf, r.position);
        FieldsInMore(buf, r.position, g, Max(f, g));
      }
      FieldInMore(buf, pos, f, Max(f, g));
      fuel := Max(f, g) + 1;
    }
  }

  lemma {:induction false} FieldEnds(buf: seq<byte>, pos: nat) returns (fuel: nat)
    requires SkipField(buf, pos).position < U64
    ensures FieldIn(buf, pos, fuel) == Some(SkipField(buf, pos))
    decreases Left(buf, pos), 0, 0
  {
    hide Skip, SkipIn, FieldHeaderAt;
    var h := FieldHeaderAt(buf, pos);
    fuel := 1;
    if h.ok {
      fuel := SkipEnds(buf, h.position, h.ty);
      fuel := fuel + 1;
    }
  }

  /** The code ends with the outcome of `Skip` exactly if no sum leaves the 64 bits: `Skip` only
      grows, so its last position says that of all. */
  lemma AgreesIff(buf: seq<byte>, pos: nat, ty: byte)
    requires pos < U64 && |buf| < U64
    ensures (exists fuel :: SkipIn(buf, pos, ty, fuel) == Some(Skip(buf, pos, ty))) <==> Skip(buf, pos, ty).position < U64
  {
    hide Skip, SkipIn;
    if Skip(buf, pos, ty).position < U64 {
      var fuel := SkipEnds(buf, pos, ty);
    } else {
      forall fuel
        ensures SkipIn(buf, pos, ty, fuel) != Some(Skip(buf, pos, ty))
      {
        SkipInIsWord(buf, pos, ty, fuel);
      }
    }
  }

  // ---------------------------------------------------------------- a skip that never ends

  /** An object with one field, a string of length 2^64 - 12 whose text begins at byte 17. */
  const SPINNING: seq<byte> := [15, 0, 0, 0, 0, 1, 12, 0xF4, 0xFF, 0xFF, 0xFF, 0xFF, 0xFF, 0xFF, 0xFF, 0xFF, 0x01]

  lemma LengthBytes()
    ensures Varint(U64 - 12) == [0xF4, 0xFF, 0xFF, 0xFF, 0xFF, 0xFF, 0xFF, 0xFF, 0xFF, 0x01]
  {
    assert Varint(0x1) == [0x01];
    OneGroup(0xff, 1);
    OneGroup(0x7fff, 0xff);
    OneGroup(0x3f_ffff, 0x7fff);
    OneGroup(0x1fff_ffff, 0x3f_ffff);
    OneGroup(0xf_ffff_ffff, 0x1fff_ffff);
    OneGroup(0x7ff_ffff_ffff, 0xf_ffff_ffff);
    OneGroup(0x3_ffff_ffff_ffff, 0x7ff_ffff_ffff);
    OneGroup(0x1ff_ffff_ffff_ffff, 0x3_ffff_ffff_ffff);
    LowestGroup();
  }

  lemma OneGroup(v: nat, rest: nat)
    requires v == 128 * rest + 127 && rest > 0
    ensures Varint(v) == [0xFF] + Varint(rest)
  {
    assert v / 128 == rest && v % 128 == 127;
  }

  lemma LowestGroup()
    ensures Varint(U64 - 12) == [0xF4] + Varint(0x1ff_ffff_ffff_ffff)
  {
    var v := U64 - 12;
    assert v / 128 == 0x1ff_ffff_ffff_ffff && v % 128 == 0x74;
  }

  lemma LengthIsRead(b: seq<byte>)
    requires b == SPINNING
    ensures ReadVarint(b, 7, 0, 0, 64) == VarintRead(true, U64 - 12, 17)
  {
    hide ReadVarint, Varint, Pow2, At;
    LengthBytes();
    WordSizes();
    AtIsSlice(b, 7, Varint(U64 - 12));
    assert b[7..17] == Varint(U64 - 12);
    ReadsBack(b, 7, U64 - 12, 64);
  }

  /** One round of the object's loop leads from byte 5 back to byte 5. */
  lemma BackToStart(b: seq<byte>, fuel: nat)
    requires b == SPINNING && fuel > 1
    ensures FieldIn(b, 5, fuel) == Some(Outcome(true, 5))
  {
    hide ReadVarint, FieldHeaderAt;
    LengthIsRead(b);
    StringFieldAt(b);
    assert Advance(17, U64 - 12) == 5;
  }

  lemma StringFieldAt(b: seq<byte>)
    requires b == SPINNING
    ensures FieldHeaderAt(b, 5) == FieldHeader(true, 1, STRING, 7)
  {
    hide Pow2, At;
    assert Varint(1) == [1];
    AtIsSlice(b, 5, Varint(1) + [STRING]);
    assert b[5..7] == Varint(1) + [STRING];
    WordSizes();
    FieldHeaderRoundTrip(b, 5, 1, STRING);
  }

  lemma {:induction false} LoopsForever(b: seq<byte>, fuel: nat)
    requires b == SPINNING
    ensures FieldsIn(b, 5, fuel) == None
    decreases fuel
  {
    hide FieldIn;
    if fuel > 2 {
      BackToStart(b, fuel - 1);
      LoopsForever(b, fuel - 1);
    } else if fuel == 2 {
      OneStepIsNotEnough(b);
    } else if fuel == 1 {
      NoFuelNoField(b);
    }
  }

  lemma NoFuelNoField(b: seq<byte>)
    ensures FieldIn(b, 5, 0) == None
  {
  }

  lemma OneStepIsNotEnough(b: seq<byte>)
    requires b == SPINNING
    ensures FieldIn(b, 5, 1) == None
  {
    hide FieldHeaderAt;
    StringFieldAt(b);
  }

  /** On these 17 bytes the skip of an object never ends. */
  lemma SpinsForever(fuel: nat)
    ensures SkipIn(SPINNING, 0, OBJECT, fuel) == None
  {
    hide FieldsIn;
    assert ObjectHeaderAt(SPINNING, 0) == Outcome(true, 5);
    if fuel > 0 {
      LoopsForever(SPINNING, fuel - 1);
    }
  }

  // ---------------------------------------------------------------- with a guard

  /** The test that `mp_protobuf_skip_field` makes: what a value claims to take must be left. */
  function Within(buf: seq<byte>, start: nat, pos: nat, n: nat): (r: Outcome)
    requires start <= pos <= |buf| < U64
    ensures start <= r.position <= |buf|
    ensures r == if n <= |buf| - pos then Outcome(true, pos + n) else Outcome(false, start)
  {
    if n > |buf| - pos then Outcome(false, start) else Outcome(true, Advance(pos, n))
  }

  function GuardedBlob(buf: seq<byte>, pos: nat): (r: Outcome)
    requires pos <= |buf| < U64
    ensures pos <= r.position <= |buf|
  {
    var length := ReadVarint(buf, pos, 0, 0, 64);
    if length.ok then Within(buf, pos, length.position, length.value) else Outcome(false, pos)
  }

  /** The skipper with that test. On the same wrapping positions it ends on all bytes, never moves
      back, and never passes the end of the buffer. */
  function GuardedSkip(buf: seq<byte>, pos: nat, ty: byte): (r: Outcome)
    requires pos <= |buf| < U64
    ensures pos <= r.position <= |buf|
    decreases Left(buf, pos), 0, 0
  {
    if ty == NULL then Outcome(true, pos)
    else if Width(ty) > 0 then
      Within(buf, pos, pos, Width(ty))
    else if ty == STRING || ty == BYTES then GuardedBlob(buf, pos)
    else if ty == ARRAY then
      var h := ArrayHeaderAt(buf, pos);
      if h.ok then GuardedElements(buf, h.position, h.elementType, h.count) else Outcome(false, pos)
    else if ty == OBJECT then
      var h := ObjectHeaderAt(buf, pos);
      if h.ok then GuardedFields(buf, h.position) else Outcome(false, pos)
    else Outcome(false, pos)
  }

  function GuardedElements(buf: seq<byte>, pos: nat, ty: byte, count: nat): (r: Outcome)
    requires pos <= |buf| < U64
    ensures pos <= r.position <= |buf|
    decreases Left(buf, pos), 1, count
  {
    if count == 0 then Outcome(true, pos)
    else
      var first := GuardedSkip(buf, pos, ty);
      if first.ok then GuardedElements(buf, first.position, ty, count - 1) else first
  }

  function GuardedFields(buf: seq<byte>, pos: nat): (r: Outcome)
    requires pos <= |buf| < U64
    ensures pos <= r.position <= |buf|
    decreases Left(buf, pos), 1, 0
  {
    if pos == |buf| then Outcome(true, pos)
    else if buf[pos] == END_MARKER then Outcome(true, pos + 1)
    else
      var h := FieldHeaderAt(buf, pos);
      if !h.ok then Outcome(false, pos)
      else
        var r := GuardedSkip(buf, h.position, h.ty);
        if r.ok then GuardedFields(buf, r.position) else r
  }

  /** The guarded outcome is that of the unwrapped skip, where this succeeds inside the buffer, and a
      failure everywhere else. */
  ghost predicate Guards(buf: seq<byte>, guarded: Outcome, plain: Outcome) {
    if plain.ok && plain.position <= |buf| then guarded == plain else !guarded.ok
  }

  lemma {:induction false} GuardedIff(buf: seq<byte>, pos: nat, ty: byte)
    requires pos <= |buf| < U64
    ensures Guards(buf, GuardedSkip(buf, pos, ty), Skip(buf, pos, ty))
    decreases Left(buf, pos), 0, 0
  {
    hide ReadVarint, FieldHeaderAt, ArrayHeaderAt, ObjectHeaderAt;
    if ty == ARRAY && ArrayHeaderAt(buf, pos).ok {
      var a := ArrayHeaderAt(buf, pos);
      GuardedElementsIff(buf, a.position, a.elementType, a.count);
    } else if ty == OBJECT && ObjectHeaderAt(buf, pos).ok {
      GuardedFieldsIff(buf, ObjectHeaderAt(buf, pos).position);
    }
  }

  lemma {:induction false} GuardedElementsIff(buf: seq<byte>, pos: nat, ty: byte, count: nat)
    requires pos <= |buf| < U64
    ensures Guards(buf, GuardedElements(buf, pos, ty, count), SkipElements(buf, pos, ty, count))
    decreases Left(buf, pos), 1, count
  {
    hide Skip, GuardedSkip;
    if count > 0 {
      GuardedIff(buf, pos, ty);
      var first := GuardedSkip(buf, pos, ty);
      if first.ok {
        GuardedElementsIff(buf, first.position, ty, count - 1);
      }
    }
  }

  lemma {:induction false} GuardedFieldsIff(buf: seq<byte>, pos: nat)
    requires pos <= |buf| < U64
    ensures Guards(buf, GuardedFields(buf, pos), SkipFields(buf, pos))
    decreases Left(buf, pos), 1, 0
  {
    hide Skip, GuardedSkip, FieldHeaderAt;
    if pos < |buf| && buf[pos] != END_MARKER {
      var h := FieldHeaderAt(buf, pos);
      if h.ok {
        GuardedIff(buf, h.position, h.ty);
        var r := GuardedSkip(buf, h.position, h.ty);
        if r.ok {
          GuardedFieldsIff(buf, r.position);
        }
      }
    }
  }

  /** So the guard costs nothing: whatever the writers wrote it lets pass to its end. */
  lemma GuardedFindsEnd(buf: seq<byte>, pos: nat, v: Value)
    requires WellFormed(v) && NoFalseEnd(v) && At(buf, pos, Encode(v)) && pos <= |buf| < U64
    ensures GuardedSkip(buf, pos, TypeOf(v)) == Outcome(true, pos + |Encode(v)|)
  {
    hide Skip, GuardedSkip, Encode, WellFormed, NoFalseEnd, At;
    SkipFindsEnd(buf, pos, v);
    AtIsSlice(buf, pos, Encode(v));
    GuardedIff(buf, pos, TypeOf(v));
  }
}
