/** The growing byte writer and the positioned byte reader that the EDF and protobuf codecs each
    declare in the same words. */
module Buffers {
  import opened Bits
  import opened Bytes

  /** `realloc_fn` is modelled as succeeding and keeping what was written; `dynamic` says that one
      was given. A null buffer is an array of length 0, and `capacity` is the array's length. */
  class Writer {
    var buffer: array<byte>
    var position: nat
    const dynamic: bool

    ghost predicate Valid()
      reads this, buffer
    {
      position <= buffer.Length
    }

    function Contents(): seq<byte>
      reads this, buffer
      requires Valid()
    {
      buffer[..position]
    }

    /** What the caller of a write must know: a writer over a caller's own buffer has no way to
        grow, and the write functions store without looking. */
    ghost predicate Room(n: nat)
      reads this, buffer
    {
      dynamic || position + n <= buffer.Length
    }

    /** The storage is what it was, or a larger one that replaced it. */
    twostate predicate Regrown()
      reads this
    {
      buffer == old(buffer) || (dynamic && fresh(buffer))
    }

    constructor Static(storage: array<byte>)
      ensures Valid() && buffer == storage && !dynamic
      ensures Contents() == []
    {
      buffer, position, dynamic := storage, 0, false;
    }

    constructor Dynamic(initialCapacity: nat)
      ensures Valid() && fresh(buffer) && buffer.Length == initialCapacity && dynamic
      ensures Contents() == []
    {
      buffer, position, dynamic := new byte[initialCapacity], 0, true;
    }

    /** Doubles the capacity, from 256 if there is none, until `needed` more bytes fit. */
    method EnsureCapacity(needed: nat)
      requires Valid()
      modifies this`buffer
      ensures Valid() && Contents() == old(Contents())
      ensures dynamic ==> position + needed <= buffer.Length
      ensures buffer == old(buffer) || (dynamic && fresh(buffer) && old(buffer.Length) < position + needed)
    {
      if position + needed <= buffer.Length {
        return;
      }
      var newCapacity := if buffer.Length == 0 then 256 else buffer.Length * 2;
      while position + needed > newCapacity
        invariant newCapacity > 0
        decreases position + needed - newCapacity
      {
        newCapacity := newCapacity * 2;
      }
      if dynamic {
        var newBuffer := new byte[newCapacity];
        for i := 0 to position
          invariant buffer == old(buffer) && newBuffer[..i] == buffer[..i]
        {
          newBuffer[i] := buffer[i];
        }
        buffer := newBuffer;
      }
    }

    /** `writer->buffer[writer->position++] = b` */
    method Store(b: byte)
      requires Valid() && position < buffer.Length
      modifies this`position, buffer
      ensures Valid() && position == old(position) + 1
      ensures Contents() == old(Contents()) + [b]
    {
      buffer[position] := b;
      position := position + 1;
    }

    method WriteByte(b: byte)
      requires Valid() && Room(1)
      modifies this, buffer
      ensures Valid() && Regrown()
      ensures Contents() == old(Contents()) + [b]
    {
      EnsureCapacity(1);
      Store(b);
    }

    /** Base-128 groups, asking for room byte by byte. */
    method WriteLength(length: nat)
      requires Valid() && Room(|Varint(length)|)
      modifies this, buffer
      ensures Valid() && Regrown()
      ensures Contents() == old(Contents()) + Varint(length)
    {
      var rest := length;
      while rest >= 0x80
        invariant Valid() && Regrown()
        invariant Room(|Varint(rest)|)
        invariant Contents() + Varint(rest) == old(Contents()) + Varint(length)
      {
        MoreGroups(64, rest);
        WriteByte(Or(64, rest, 0x80) % 256);
        rest := rest / 128;
      }
      WriteByte(rest);
    }

    /** The `n` bytes of a fixed-width word, lowest first. */
    method WriteWord(v: nat, n: nat)
      requires Valid() && Room(n)
      modifies this, buffer
      ensures Valid() && Regrown()
      ensures Contents() == old(Contents()) + LittleEndian(v, n)
    {
      EnsureCapacity(n);
      var rest := v;
      for i := 0 to n
        invariant Valid() && Regrown()
        invariant position + (n - i) <= buffer.Length
        invariant Contents() + LittleEndian(rest, n - i) == old(Contents()) + LittleEndian(v, n)
      {
        Store(rest % 256);
        rest := rest / 256;
      }
    }

    /** Copies `data` in; a writer that cannot grow refuses what does not fit. */
    method WriteData(data: seq<byte>) returns (ok: bool)
      requires Valid()
      modifies this, buffer
      ensures Valid() && Regrown()
      ensures ok == old(Room(|data|))
      ensures Contents() == if ok then old(Contents()) + data else old(Contents())
    {
      EnsureCapacity(|data|);
      if position + |data| > buffer.Length {
        return false;
      }
      for i := 0 to |data|
        invariant Valid() && position == old(position) + i
        invariant position + (|data| - i) <= buffer.Length
        invariant Regrown()
        invariant Contents() == old(Contents()) + data[..i]
      {
        Store(data[i]);
      }
      return true;
    }
  }

  /** A read-only buffer and a position. The position is a natural number: an EDF skip moves it
      without looking at the length, so it may pass the end. */
  class Reader {
    const buffer: seq<byte>
    var position: nat

    constructor (storage: seq<byte>)
      ensures buffer == storage && position == 0
    {
      buffer, position := storage, 0;
    }

    /** The loop of every varint reader: `|=` of the low seven bits, shifted, into a word. */
    method ReadVarint(width: nat) returns (ok: bool, value: nat)
      requires width > 0
      modifies this
      ensures VarintRead(ok, value, position) == Bytes.ReadVarint(buffer, old(position), 0, 0, width)
    {
      hide Or, And, Group, Pow2;
      value := 0;
      var shift := 0;
      NoBitsYet();
      while true
        invariant value < Pow2(shift) && shift < width
        invariant Bytes.ReadVarint(buffer, old(position), 0, 0, width)
               == Bytes.ReadVarint(buffer, position, value, shift, width)
        decreases |buffer| - position
      {
        if position >= |buffer| {
          return false, value;
        }
        var b := buffer[position];
        position := position + 1;
        GroupBits(b);
        Gathered(value, b, shift, width);
        value := Or(width, value, ShiftLeft(width, And(8, b, 0x7F), shift));
        if And(8, b, 0x80) == 0 {
          return true, value;
        }
        shift := shift + 7;
        if shift >= width {
          return false, value;
        }
      }
    }
  }

  lemma NoBitsYet()
    ensures 0 < Pow2(0)
  {
  }

  /** One more group: the sum of the definition, and still below the next group's bits. */
  lemma Gathered(value: nat, b: byte, shift: nat, width: nat)
    requires value < Pow2(shift) && shift < width
    ensures Or(width, value, ShiftLeft(width, b % 128, shift)) == value + Group(b, shift, width)
    ensures shift + 7 < width ==> value + Group(b, shift, width) < Pow2(shift + 7)
  {
    OrShifted(width, value, b % 128, shift);
    if shift + 7 < width {
      hide Or, Pow2, Group;
      SevenMore(value, b % 128, shift);
      Pow2Strict(shift + 7, width);
      GroupFits(b, shift, width);
    }
  }

  lemma SevenMore(value: nat, bits: nat, shift: nat)
    requires value < Pow2(shift) && bits < 128
    ensures bits * Pow2(shift) + value < Pow2(shift + 7)
  {
    hide Pow2;
    Pow2Plus7(shift);
    Distribute(bits, 1, Pow2(shift));
    BelowProductOrEqual(bits + 1, 128, Pow2(shift));
  }

  lemma BelowProductOrEqual(a: nat, b: nat, p: nat)
    requires a <= b
    ensures a * p <= b * p
  {
    Distribute(a, b - a, p);
    assert (b - a) * p >= 0;
  }
}
