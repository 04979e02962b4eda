# Verification models of microPOSIX

Dafny models of the parts of microPOSIX that keep state or undo other code, with proofs of what they
promise: the wire formats, the OData query pipeline, two-core synchronisation, the kernel's
scheduling, and the allocators. `dafny verify dfyconfig.toml` checks everything.

Code that changes things step by step is a class or a method with loops, proved to compute a function
of the old state. The laws are lemmas about those functions, or, for the two interleaved protocols,
about state machines.

| files | what they model |
|---|---|
| `Bytes`, `Bits`, `Buffers` | words, base-128 varints, bit masks; the growing writer and the reader of EDF and protobuf |
| `Edf`, `EdfNesting`, `EdfWrap` | the EDF writers, the skipper that must find its way over what they wrote, exactly when it does not, and what 64-bit positions do to it |
| `Protobuf` | the protobuf wire format, both directions, and skipping ("Base 128 Varints", "Message Structure", "Signed Integers" and "Length-Delimited Records" of the Protocol Buffers Encoding specification) |
| `JsonStrings`, `JsonTree`, `JsonParser`, `JsonGenerator`, `JsonRoundTrip` | JSON escapes, equality and deep copy, the parser, the generator, and the two against each other |
| `JsonStandard`, `JsonConformance` | a reader of JSON by sections 2 to 7 of RFC 8259, and the generator and the parser against it |
| `OData` | filter, multi-key bubble sort and paging (sections 11.2.5.1 to 11.2.5.4 of OData Version 4.0 Part 1: Protocol) |
| `CrossCoreMutex`, `SharedCoreTimeouts`, `CoreBarrier` | the recursive mutex over a spinlock, exactly when its timeouts break it, and the start-up barrier, as interleaved steps |
| `Kernel`, `Scheduler` | the scheduling calls as functions with the laws of their runs; the linked list of control blocks that computes them |
| `Timers` | the timer list that is changed while it is walked |
| `FreeList`, `Pool`, `Alignment`, `Arena` | the shared heap's free list and defragmenter, the block pool, address rounding, the bump-pointer arena |

## What is false of the code

Where the code does not meet what its documentation suggests, the models follow the code and the
lemmas say exactly when it works:

- An EDF field id that is at least 128 and 127 modulo 128 begins with the byte of the object end
  marker. `mp_edf_skip_value` then succeeds but stops early, exactly if there is such an id at any depth
  of objects (`EdfNesting.SkippedIff`). Inside an array the skip can recover by chance
  (`EdfNesting.ArraysCanRecover`).
- `mp_edf_skip_value` need not end on arbitrary bytes, and can move the position back: it adds lengths
  from the bytes to a 64-bit position without a look at what is left. A step moves back exactly if its sum
  leaves the 64 bits (`EdfWrap.MovesBackIff`), the skip is the one without wraps exactly if none does
  (`EdfWrap.AgreesIff`), and there are 17 bytes on which it never ends (`EdfWrap.SpinsForever`). The test
  that `mp_protobuf_skip_field` makes would prevent it and refuse nothing that lies in the buffer
  (`EdfWrap.GuardedSkip`, `EdfWrap.GuardedIff`).
- Protobuf field numbers lose their upper bits from 2^29 on, since the tag is shifted in 32 bits
  (`Protobuf.HeaderRoundTripIff`).
- `parse_string` refuses every double quote, so no string and no object with members survives a JSON
  round trip (`JsonRoundTrip.RoundTripIff`); the same text in single quotes does, where it is allowed
  (`JsonRoundTrip.SingleQuotedRoundTripIff`). A blank does for a comma (`JsonRoundTrip.CommasAreOptional`),
  and an array's last bracket may be missing (`JsonRoundTrip.ClosingBracketIsOptional`), unlike in section
  5 of RFC 8259. Among all JSON texts whose numbers are 64-bit integers the parser takes exactly those
  without strings and keys (`JsonConformance.JsonParses`), although what the generator writes is JSON
  (`JsonStandard.GeneratedIsJson`). The flags for trailing commas and unquoted keys have no effect
  (`JsonRoundTrip.IdleFlags`).
- A control character other than `\b \f \n \r \t` comes back from a JSON string as its escape
  (`JsonStrings.StringRoundTripIff`).
- Unicode escapes are not undone: past the quote test a JSON string is read right exactly if there is none
  in it (`JsonConformance.StringReadIff`).
- A block comment that is never closed is not refused: the last character of the text is read behind it
  (`JsonRoundTrip.UnclosedCommentIsRead`).
- `mp_json_equal` is reflexive and symmetric at a value exactly if the value repeats no key
  (`JsonTree.ReflexiveAndSymmetricIff`), and transitive exactly if no two of the integers that occur have
  the same double (`JsonTree.TransitiveIff`).
- The OData sort sorts all lists of some entities, and filter and sort commute on them, exactly if the
  comparison is transitive on the entities (`OData.SortsIff`, `OData.CommuteIff`); with a key of mixed
  types it is not (`OData.MixedTypesAreNotOrdered`). By the keys in front of it the list is sorted all the
  same (`OData.OrderBySorts`).
- Paging selects what `$top` and `$skip` ask for exactly if `$top` is positive or nothing is left: a zero
  takes everything (`OData.PagedIsSelectionIff`). A negative `$skip` leaves nothing
  (`OData.PagedAtTheEdges`).
- A waiter that times out on the mutex releases a spinlock it did not take. This breaks the lock exactly
  if another thread of the same core is inside (`CrossCoreMutex.SpinStepIff`). For any set of threads the
  mutex excludes in all their runs exactly if none that may use a timeout shares its core
  (`SharedCoreTimeouts.ExclusionIff`).
- The scheduler's pending thread is not taken back when the current one becomes the best again. A switch
  that comes only after several calls is right exactly if the current thread is not the best in the end,
  or was so after every one of the calls (`Kernel.LateSwitchIff`, `Kernel.LateSwitchFails`).
- The barrier lets one core through and turns the other away, with one thread on each, exactly after a
  poll that succeeds between the other's timeout and its withdrawal (`CoreBarrier.SplitNeedsParting`,
  `CoreBarrier.PartingSplits`). Calls without a timeout are never turned away
  (`CoreBarrier.UntimedNeverFails`).
- The sums of the arena and of `find_free_block` wrap at 64 bits; what they grant lies in the buffer, or
  fits the block, exactly if they do not (`Arena.GrantedInsideIff`, `FreeList.FitsIff`), and sums that
  wrap are granted (`Arena.WrappedRequestIsGranted`, `FreeList.WrappedRequestFits`).

## Assumptions

- A critical region (interrupts off, bus locked) is one step, in the mutex and in the barrier. A thread
  is its core and its id. A thread nests fewer than 2^32 locks.
- `realloc` and `malloc` succeed and keep what was written. Positions in the protobuf and JSON readers,
  which never pass the end, are natural numbers.
- In the runs of the kernel each call is followed by the switch it asks for, except in the two lemmas on
  late switches.
- The switch handler's `current_thread` and `next_thread` are the scheduler's own. In
  `src/kernel/scheduler.c` they are `static`, while `platform/nrf54l15/m33/context_switch.c` declares
  them `extern`; the model takes the two to be meant as one.
- `evaluate_filter` is any predicate on entities, and timer callbacks leave the timer list alone.
- `strtod`, `%.15g` and the conversions between integers and doubles are parameters of the JSON modules
  of which nothing is assumed; a double is a real number.

## Model

| member | source | states |
|---|---|---|
| Bytes.VarintRoundTrip | src/serialization/protobuf.c:161-201 | reading the base-128 groups of a value, from any accumulated value and shift, adds up to the value and stops behind its last group |
| Bytes.VarintFitsTen | src/serialization/protobuf.c:161-173 | a 64-bit value takes at most ten groups |
| Bytes.LittleEndianRoundTrip | src/serialization/protobuf.c:204-269 | the low-byte-first word of n bytes gives back every value below 256^n |
| Bytes.LittleEndianAt | src/serialization/protobuf.c:204-214 | byte i of a written word is the word divided by 2^(8i), modulo 256 |
| Bytes.VarintAt | src/serialization/protobuf.c:161-173 | byte i of a written varint has the seven bits from bit 7i on, and is below 128 exactly if it is the last |
| Bytes.ReadVarintIff | src/serialization/protobuf.c:175-201 | on any bytes a varint is read if and only if a byte below 128 ends it while the groups are within the width, and the reader stands behind that byte |
| Bits.OrShifted | src/serialization/protobuf.c:161-201 | joining with `or` what lies below bit s to anything shifted up by s, in words of any width, adds the two |
| Bits.GroupBits | src/serialization/protobuf.c:175-201 | `b & 0x7F` is the remainder by 128, and `b & 0x80` is clear exactly below 128 |
| Bits.MoreGroups | src/serialization/protobuf.c:161-173 | the low byte of the value with bit 7 set is 128 plus the remainder by 128 |
| Buffers.Writer.Static | src/serialization/edf.c:40-51 | an empty writer over the caller's own buffer, which cannot grow |
| Buffers.Writer.EnsureCapacity | src/serialization/edf.c:16-37 | room for what is needed in a dynamic writer, nothing written is lost, the buffer is replaced only if it was too small |
| Buffers.Writer.WriteLength | src/serialization/edf.c:542-553 | appends exactly the base-128 groups of the length |
| Buffers.Writer.WriteWord | src/serialization/protobuf.c:204-248 | appends exactly the value's bytes, lowest first |
| Buffers.Writer.WriteData | src/serialization/edf.c:498-515 | appends the data if it fits or the writer can grow, and otherwise fails and writes nothing |
| Buffers.Reader.ReadVarint | src/serialization/protobuf.c:175-201 | the loop of masks, shifts and ors reads the sum of the definition: value, failure and position, on arbitrary bytes |
| Edf.SkipFindsEnd | src/serialization/edf.c:682-761 | a value of any nesting, anywhere in any buffer, is skipped successfully to exactly its end, if no field id looks like the end marker |
| Edf.SkipFindsElementsEnd | src/serialization/edf.c:722-734 | the same for the elements of an array |
| Edf.SkipFindsFieldsEnd | src/serialization/edf.c:735-757 | the same for the fields of an object with its end marker |
| Edf.SkipFindsFieldEnd | src/serialization/edf.c:763-774 | `mp_edf_skip_field` skips a written field to exactly its end |
| EdfNesting.SkippedIff | src/serialization/edf.c:682-761 | a value whose arrays are free of such ids is skipped to exactly its end if and only if no field id in it, at any depth of objects, is at least 128 and 127 modulo 128; the skip succeeds in any case and never passes the end |
| EdfNesting.FieldsAtDepth | src/serialization/edf.c:735-757 | at any depth, every false end closes one level early and what follows it still reads as fields |
| EdfNesting.ArraysCanRecover | src/serialization/edf.c:722-734 | an array of two objects, with such an id, that is skipped to exactly its end all the same |
| Edf.SkipStopsAtFalseEnd | src/serialization/edf.c:741-753 | otherwise the skip stops one byte into the first field with such an id |
| Edf.FieldHeaderRoundTrip | src/serialization/edf.c:181-220 | reading a written field header gives back id and type and ends behind it |
| Edf.ArrayHeaderRoundTrip | src/serialization/edf.c:596-633 | reading a written array header gives back element type and count and ends behind it |
| Edf.ObjectHeaderRoundTrip | src/serialization/edf.c:636-663 | a written object header is accepted and passed over |
| Edf.FixedBytes | src/serialization/edf.c:216-445 | by the numbers of the type codes: one byte for 1, 2, 6, two for 3, 7, four for 4, 8, 10, 17, 19, eight for 5, 9, 11, 18, 20, the lowest first, and none for any other code |
| Edf.WriteFixed | src/serialization/edf.c:216-445 | the write function of each type appends those bytes |
| Edf.SkippedBytes | src/serialization/edf.c:682-721 | a skip goes as many bytes on, by the same numbers, and fails on the spot for 16 and everything above 20 |
| Edf.Framing | src/serialization/edf.c:596-646 | arrays begin with 14 and their element type, objects with 15 and end with 255, a string or byte string is its length and its bytes |
| Edf.HeadersTaken | src/serialization/edf.c:613-663 | on any bytes an array header is taken if and only if it begins with 14 and a type and a whole count follow, an object header if and only if it begins with 15 and four bytes follow |
| Edf.Skip | src/serialization/edf.c:682-761 | with positions that do not wrap, skipping ends on arbitrary bytes, by the bytes left before each nested header, and never moves back |
| Edf.WriteValue | src/serialization/edf.c:542-670 | appends exactly the encoding of a value of any nesting |
| Edf.WriteFieldHeader | src/serialization/edf.c:181-195 | appends exactly the groups of the id and the type byte |
| Edf.WriteBlob | src/serialization/edf.c:453-515 | appends length and data, or fails when a fixed buffer has no room for the data |
| Edf.WriteArrayHeader | src/serialization/edf.c:596-611 | appends exactly the array header |
| Edf.WriteObjectHeader | src/serialization/edf.c:636-646 | appends exactly the object header |
| Edf.SkipValue | src/serialization/edf.c:682-761 | with 64-bit positions, where no sum wraps, the loops and recursive calls end with the outcome and position of `Skip` |
| Edf.SkipWholeField | src/serialization/edf.c:763-774 | the same for a header and the value behind it |
| EdfWrap.AgreesIff | src/serialization/edf.c:682-761 | with 64-bit positions and on arbitrary bytes, the code ends with the outcome of `Skip` if and only if the position of `Skip` is below 2^64 |
| EdfWrap.SkipEnds | src/serialization/edf.c:682-761 | a skip none of whose sums wraps ends after finitely many calls and rounds |
| EdfWrap.MovesBackIff | src/serialization/edf.c:688-721 | a step over n bytes moves the position back if and only if position + n is at least 2^64 |
| EdfWrap.BackToStart | src/serialization/edf.c:741-755 | on 17 bytes, one round of the object's loop leads from byte 5 back to byte 5 |
| EdfWrap.SpinsForever | src/serialization/edf.c:735-757 | the skip of these bytes as an object never ends |
| EdfWrap.GuardedSkip | src/serialization/protobuf.c:604-634 | with the test of the protobuf skipper at every value, on the same wrapping positions, skipping ends on arbitrary bytes, never moves back and stays in the buffer |
| EdfWrap.GuardedIff | src/serialization/protobuf.c:604-634 | the guarded skip succeeds if and only if the unwrapped one succeeds inside the buffer, and then has its outcome |
| EdfWrap.GuardedFindsEnd | src/serialization/edf.c:682-761 | the guard lets pass whatever the writers wrote |
| Edf.ReadFieldHeader | src/serialization/edf.c:197-220 | the loop reads the header as defined, in 32 bits, and fails at the same position |
| Edf.ReadArrayHeader | src/serialization/edf.c:613-633 | the array header is read, or refused at the same position, as defined |
| Edf.ReadObjectHeader | src/serialization/edf.c:648-663 | the object header is read, or refused at the same position, as defined |
| Edf.PassOver | src/serialization/edf.c:682-761 | a value of less than 2^64 bytes, written to a dynamic writer of any initial capacity and then skipped, leaves exactly the bytes written after it |
| Protobuf.ZigzagMeaning | src/serialization/protobuf.c:650-660 | the shift-and-xor zig-zag is 2n for n >= 0 and -2n - 1 below |
| Protobuf.UnzigzagMeaning | src/serialization/protobuf.c:654-664 | its inverse halves even words and negates odd ones |
| Protobuf.ZigzagRoundTrip | src/serialization/protobuf.c:650-664 | unzigzag undoes zigzag on every signed word |
| Protobuf.UnzigzagRoundTrip | src/serialization/protobuf.c:650-664 | zigzag undoes unzigzag on every unsigned word |
| Protobuf.TagIsSum | src/serialization/protobuf.c:407-413 | the number shifted by three in 32 bits and joined with a wire type is their sum |
| Protobuf.TagBits | src/serialization/protobuf.c:407-427 | of the tag so joined, the low three bits are the wire type, and the rest is the number if and only if that is below 2^29 |
| Protobuf.FirstByteOfField | include/microposix/serialization/protobuf.h:30-35 | the low three bits of a written field's first byte are 0 before a varint, 1 before eight bytes, 2 before a length and as many bytes, 5 before four bytes |
| Protobuf.SkippedByWireType | src/serialization/protobuf.c:604-634 | a skip passes over exactly these for 0, 1, 2 and 5, and fails on the spot if they are not there and for every other wire type |
| Protobuf.WireTypeTaken | src/serialization/protobuf.c:415-427 | a reader that expects a kind takes a field only with that kind's wire type |
| Protobuf.WideSint32 | src/serialization/protobuf.c:540-550 | of a varint too wide for a sint32 the low 32 bits are unzigzagged |
| Protobuf.HeaderRoundTripIff | src/serialization/protobuf.c:407-427 | a written field header is read back unchanged if and only if the number is below 2^29 |
| Protobuf.DelimitedRoundTrip | src/serialization/protobuf.c:272-311 | a length-delimited payload is read back and ended behind |
| Protobuf.WordRoundTrip | src/serialization/protobuf.c:204-269 | a fixed word is read back and ended behind |
| Protobuf.FieldRoundTrip | src/serialization/protobuf.c:161-311 | a field of any kind is read back by header and payload, and `mp_protobuf_skip_unknown` ends at the same place |
| Protobuf.FieldsRoundTrip | src/serialization/protobuf.c:407-427 | any list of fields, wherever it stands in a buffer, is read back header by header |
| Protobuf.SkipPrefix | src/serialization/protobuf.c:604-647 | skipping any number of unknown fields leaves the reader at the start of the next field, with the rest of the list before it |
| Protobuf.VarintSize | src/serialization/protobuf.c:667-674 | the loop counts exactly the bytes the writer writes |
| Protobuf.FieldHeaderSize | src/serialization/protobuf.c:676-679 | the size is that of the header the writer writes |
| Protobuf.DelimitedSize | src/serialization/protobuf.c:681-684 | the size is that of header, length and data as written |
| Protobuf.WriteVarint | src/serialization/protobuf.c:161-173 | appends exactly the base-128 groups of the value |
| Protobuf.WriteDelimited | src/serialization/protobuf.c:272-290 | appends length and data, or fails when a fixed buffer has no room for the data |
| Protobuf.WriteFields | src/serialization/protobuf.c:407-413 | appends exactly the encodings of the fields, in order |
| Protobuf.ReadHeader | src/serialization/protobuf.c:415-427 | number, wire type, failure and position are as defined |
| Protobuf.ReadWord | src/serialization/protobuf.c:216-269 | the bytes shifted and joined with `or` one after the other are the little-endian value |
| Protobuf.ReadDelimited | src/serialization/protobuf.c:292-311 | the data, or the failure when the length passes the end, as defined |
| Protobuf.ReadFields | src/serialization/protobuf.c:415-427 | a client's loop reads the fields its schema names, and fails where the definition fails |
| Protobuf.SkipField | src/serialization/protobuf.c:604-634 | skipping by wire type has the outcome and position defined, on arbitrary bytes |
| Protobuf.SkipUnknownField | src/serialization/protobuf.c:636-647 | the same with the header read first |
| Protobuf.Transmit | src/serialization/protobuf.c:11-32 | a message written to a dynamic writer of any initial capacity, of which any prefix is skipped unknown, gives back exactly the other fields |
| JsonStrings.ClosingQuoteFound | src/serialization/json.c:377-390 | over an escaped string the scan for a double quote stops exactly at the generator's final quote, and the scan for a single quote at the first single quote in the string |
| JsonStrings.SurvivingReached | src/serialization/json.c:419-458 | what is read of a string up to its first single quote is the string if and only if it has no single quote and no lossy character |
| JsonStrings.UnescapeEscape | src/serialization/json.c:419-458 | unescaping the escaped text gives the string back with each lossy control character replaced by its six-character escape |
| JsonStrings.StringRoundTripIff | src/serialization/json.c:901-934 | the string comes back unchanged if and only if its only control characters are the five with short escapes |
| JsonStrings.EscapeIsPrintable | src/serialization/json.c:901-934 | nothing below the space is ever written for a string |
| JsonStrings.UnicodeStays | src/serialization/json.c:440-449 | a unicode escape is never undone: all six characters stay, and with fewer than four behind the `u` only the backslash goes |
| JsonStrings.FindClosingQuote | src/serialization/json.c:376-396 | the scanning loop finds the defined place, or reaches the end exactly when there is none |
| JsonStrings.UnescapeOne | src/serialization/json.c:421-453 | one round of the switch emits and consumes what is defined for every character |
| JsonStrings.UnescapeRange | src/serialization/json.c:419-458 | the copying loop computes the unescaped string of any range |
| JsonTree.EqualIsSameMeaning | src/serialization/json.c:1526-1584 | on trees with distinct keys (as C strings) and integer numbers, `mp_json_equal` holds if and only if the values agree as unordered key-to-value maps |
| JsonTree.DenoteIsGet | src/serialization/json.c:1283-1296 | `mp_json_object_get` answers exactly what the object's map answers |
| JsonTree.DistinctKeysCount | src/serialization/json.c:1551-1568 | distinct keys are as many as members, which turns one-way inclusion into equality |
| JsonTree.ReflexiveAndSymmetricIff | src/serialization/json.c:1526-1584 | a value equals itself and is equalled back by all that it equals if and only if no object in it repeats a key, doubles included |
| JsonTree.EqualGoesBack | src/serialization/json.c:1551-1568 | what a value without repeated keys equals has none either, and equals it |
| JsonTree.OneWayPartner | src/serialization/json.c:1551-1568 | a value that repeats a key, if it equals itself, equals some value that does not equal it |
| JsonTree.TransitiveIff | src/serialization/json.c:1540-1545 | on the trees over any set of integers that carry their doubles equality is transitive if and only if no two of the integers have the same double |
| JsonTree.EqualIsEquivalence | src/serialization/json.c:1526-1584 | from a value without repeated keys it is reflexive and symmetric, and on integer trees transitive |
| JsonTree.RepeatedKeysBreakSymmetry | src/serialization/json.c:1551-1568 | with a repeated key it is not symmetric |
| JsonTree.RepeatedKeysBreakReflexivity | src/serialization/json.c:1551-1568 | nor reflexive |
| JsonTree.MixedNumbersBreakEqual | src/serialization/json.c:1540-1545 | two integers with one double are both equal to that double, and not to each other |
| JsonTree.EqualToCopyIff | src/serialization/json.c:1459-1524 | a value equals the copy of another, whose integers carry their doubles, if and only if it equals that other |
| JsonTree.CopyIsEqualIff | src/serialization/json.c:1459-1524 | so a value equals its copy if and only if it equals itself, repeated keys or not |
| JsonTree.CopyIsEqual | src/serialization/json.c:1459-1524 | a value with distinct keys, doubles included, equals its deep copy, whose keys are distinct too |
| JsonTree.CopyKeepsMeaning | src/serialization/json.c:1459-1524 | the copy of an integer tree means the same, even with repeated keys |
| JsonTree.FindValue | src/serialization/json.c:1283-1296 | the loop returns the first match's value, or nothing exactly if there is no match |
| JsonTree.Compare | src/serialization/json.c:1526-1584 | the loops with their early returns decide the relation `Equal` |
| JsonTree.DeepCopy | src/serialization/json.c:1459-1524 | the loops build the defined copy |
| JsonParser.Parser.constructor | src/serialization/json.c:629-647 | the parser stands at the start of the input's part before its first NUL |
| JsonParser.Parser.SkipOneComment | src/serialization/json.c:47-82 | line and block comments are skipped, and an unterminated one moves the position without counting |
| JsonParser.Parser.SkipAllBlanks | src/serialization/json.c:39-82 | white space and comments are skipped as far as there are any |
| JsonParser.Parser.ReadNumber | src/serialization/json.c:464-521 | value, kind and end of the number, with `strtoll`'s saturation |
| JsonParser.Parser.ReadString | src/serialization/json.c:359-461 | quote test, scan and unescaping together |
| JsonParser.Parser.ReadValue | src/serialization/json.c:524-621 | on any text the parser object terminates with the value or failure, and the position, that the functions define |
| JsonParser.Parser.ReadArray | src/serialization/json.c:254-356 | the same for arrays, with optional commas and the end of the text as a closing bracket |
| JsonParser.Parser.ReadObject | src/serialization/json.c:88-251 | the same for objects |
| JsonParser.Parser.ParseAll | src/serialization/json.c:658-689 | the root value, or nothing if anything but blanks follows it |
| JsonGenerator.Generator.constructor | src/serialization/json.c:783-808 | an empty, NUL-terminated text in a buffer of the capacity asked for |
| JsonGenerator.Generator.EnsureCapacity | src/serialization/json.c:838-860 | room for what is needed and the terminator, nothing written is lost |
| JsonGenerator.Generator.WriteString | src/serialization/json.c:870-883 | appends the C string, and the buffer stays NUL-terminated |
| JsonGenerator.Generator.WriteQuoted | src/serialization/json.c:901-934 | appends the escaped string between double quotes, which `JsonGenerator.QuotedIsRead` and `JsonStandard.QuotedReads` read |
| JsonGenerator.Generator.WriteArray | src/serialization/json.c:992-1026 | appends exactly the array's text, and leaves the indent level as it was |
| JsonGenerator.Generator.WriteObject | src/serialization/json.c:938-990 | the same for objects, whose keys stand in the text as `JsonGenerator.KeysStand` says |
| JsonGenerator.Generator.WriteValue | src/serialization/json.c:1028-1078 | appends exactly the value's text, compact or pretty at any level, which by `JsonStandard.ValueReads` is JSON for the value wherever it stands |
| JsonGenerator.Generator.Run | src/serialization/json.c:1080-1091 | the buffer holds exactly the value's text, which by `JsonStandard.GeneratedIsJson` is JSON for the value |
| JsonGenerator.ToString | src/serialization/json.c:1586-1604 | the string returned is exactly the value's text; a string in it stands between double quotes with its closing quote at the end, each key of an object so before a colon, and what the parser's loops read there is the string, or key, if and only if it has no control character but the five with short escapes |
| JsonGenerator.QuotedIsRead | src/serialization/json.c:376-458 | past the quote test, scan and unescape loops give back what the generator quoted exactly if no character is lossy |
| JsonGenerator.TextIsQuoted | src/serialization/json.c:901-934 | the text generated for a string begins with a double quote, the scan finds the closing quote as its last character, and unescaping what is between gives the string if and only if its only control characters are the five with short escapes |
| JsonGenerator.KeysStand | src/serialization/json.c:938-990 | every key of an object stands in its text like that, before a colon |
| JsonGenerator.IndentIsSpaces | src/serialization/json.c:886-893 | the indent is two spaces for each level when pretty, and nothing when compact |
| JsonGenerator.GenerateIsCString | src/serialization/json.c:1028-1078 | no value makes the generator write a NUL |
| JsonRoundTrip.DecimalRoundTrip | src/serialization/json.c:509-515 | every 64-bit integer is read back from its decimal text, which looks like an integer to the parser |
| JsonRoundTrip.DecimalSaturates | src/serialization/json.c:509-515 | beyond 64 bits the greatest, or the least, 64-bit integer is read |
| JsonRoundTrip.NumberKindIff | src/serialization/json.c:464-521 | on any text a number is the longest stretch of digits, `.`, `e`, `E`, `+` and `-`, and an integer if and only if there is no `.`, `e` or `E` in it |
| JsonRoundTrip.GeneratedParses | src/serialization/json.c:524-621 | wherever a generated text stands, the parser ends exactly behind it with the value, or fails if there is a string or key in it |
| JsonRoundTrip.ElementsParse | src/serialization/json.c:254-356 | the same for what is left of an array, from behind its bracket or behind a comma, closed by a bracket or by the end of the text |
| JsonRoundTrip.MembersParse | src/serialization/json.c:88-251 | the same for what is left of an object spelled with single quotes |
| JsonRoundTrip.IllegibleMissed | src/serialization/json.c:524-621 | a value with a string or key that cannot be read from between single quotes is never what the parser makes of its text |
| JsonRoundTrip.RoundTripIff | src/serialization/json.c:658-689 | parsing the generator's output, compact or pretty at any indent and under any flags, gives the value back exactly if it has no string and no key, and fails otherwise, for all values built from null, booleans, 64-bit integers, strings, arrays and objects |
| JsonRoundTrip.Transmit | src/serialization/json.c:1586-1604 | the same through the generator and the parser object |
| JsonRoundTrip.SingleQuotedRead | src/serialization/json.c:359-461 | between single quotes, where they are allowed, an escaped string is read back if and only if it has neither a lossy character nor a single quote, and then whole |
| JsonRoundTrip.SingleQuotedRoundTripIff | src/serialization/json.c:658-689 | the generator's text with single quotes for the double ones parses to the value, strings, keys and nested objects included, if and only if every string and key in it can be read so |
| JsonRoundTrip.IdleFlags | src/serialization/json.c:340-352 | the flags for trailing commas and unquoted keys change the outcome of no parse |
| JsonRoundTrip.CommasAreOptional | src/serialization/json.c:342-352 | with a blank in the place of every comma a generated text has the same outcome |
| JsonRoundTrip.ClosingBracketIsOptional | src/serialization/json.c:284-289 | every generated array without strings and keys parses to the same array when its last bracket is cut off |
| JsonRoundTrip.ClosingBraceIsOptional | src/serialization/json.c:108-116 | an opening brace and white space are an empty object |
| JsonRoundTrip.WholeDoublesAreIntegers | src/serialization/json.c:1041-1058 | a double that equals its integer part is read back as that integer |
| JsonRoundTrip.TrailingRefused | src/serialization/json.c:679-685 | a generated text, white space, and any text that begins neither with white space nor with a comment are refused |
| JsonRoundTrip.TwoValuesRefused | src/serialization/json.c:679-685 | so are two generated texts with a blank between |
| JsonRoundTrip.CommentIsBlank | src/serialization/json.c:47-82 | where comments are allowed, one before a value, an element, a member or a closing bracket changes nothing of what is made of the rest, on any text |
| JsonRoundTrip.CommentsAround | src/serialization/json.c:658-689 | a generated text between two comments has the outcome of the text alone, and is refused where comments are not allowed |
| JsonRoundTrip.UnclosedCommentIsRead | src/serialization/json.c:64-78 | behind a block comment that is never closed the last character is read: a digit there is the value of the whole text |
| JsonStandard.EscapeReads | src/serialization/json.c:901-934 | by the grammar of RFC 8259 the escaped text reads as the string, whatever is in it, lossy characters included |
| JsonStandard.QuotedReads | src/serialization/json.c:901-934 | so does what is written for a string or key between its double quotes |
| JsonStandard.ValueReads | src/serialization/json.c:1028-1078 | wherever a generated text stands, compact or pretty at any level, the grammar reads the value and ends where the text ends, for all values built from null, booleans, 64-bit integers, strings, arrays and objects |
| JsonStandard.GeneratedIsJson | src/serialization/json.c:1028-1078 | so every generated text is JSON and means the value |
| JsonStandard.Serialize | src/serialization/json.c:1586-1604 | the string that `mp_json_to_string` returns is a C string that the grammar reads as the value |
| JsonConformance.ValueConforms | src/serialization/json.c:524-621 | where the grammar reads a value, the parser ends at the same place with it, or fails if a string or key is in it |
| JsonConformance.JsonParses | src/serialization/json.c:658-689 | on every JSON text whose numbers are 64-bit integers, whatever its white space and under any flags, the parser answers its value if there is no string and no key in it, and fails otherwise |
| JsonConformance.StringReadIff | src/serialization/json.c:376-458 | in every JSON string the scan finds the closing quote, and the copying loop gives the string if and only if no unicode escape is in it |
| OData.CompareFlips | src/serialization/odata.c:941-966 | swapping the arguments flips the sign, whatever the entities |
| OData.PreorderTransitive | src/serialization/odata.c:941-966 | where the comparison is transitive, so is being equal under it |
| OData.ComparableIsPreordered | src/serialization/odata.c:941-966 | it is transitive on entities that have numbers, or strings, or nothing comparable throughout under each key |
| OData.CompareTransitive | src/serialization/odata.c:941-966 | on such entities the lexicographic comparison is transitive, and so is being equal under it |
| OData.MixedTypesAreNotOrdered | src/serialization/odata.c:941-966 | with mixed types it is not transitive |
| OData.OrderByPermutes | src/serialization/odata.c:968-1013 | the sort only rearranges, whatever the entities and keys |
| OData.ParseKeyMeans | src/serialization/odata.c:975-986 | the property of an item is its text up to the first space, and it is descending if and only if " desc" stands somewhere in it |
| OData.ParseKeyForms | src/serialization/odata.c:975-986 | `p` and `p asc` are ascending and `p desc` is descending by p |
| OData.OutOfOrderIff | src/serialization/odata.c:941-1001 | for any entities and keys: two are out of order if and only if by the first key that tells them apart the second is to stand first, its number less or its string before, or the reverse if the key is descending |
| OData.OrderBySorts | src/serialization/odata.c:968-1013 | the list comes out sorted by any number of the first keys whose comparison is transitive on the entities, whatever the keys behind them do |
| OData.OrderByStandsRight | src/serialization/odata.c:968-1013 | in values: by the leading keys with numbers, or strings, or nothing comparable throughout, no entity stands in front of one that the first key that tells them apart has before it |
| OData.NumbersOrdered | src/serialization/odata.c:949-957 | with numbers throughout under a key they do not fall along the list, or do not rise if the key is descending, among entities that agree under the keys before it; under the first key, anywhere in the list |
| OData.StringsOrdered | src/serialization/odata.c:958-963 | the same for strings, by the first byte that differs, or the shorter prefix |
| OData.OrderByIsStableSort | src/serialization/odata.c:968-1013 | where the comparison is transitive the result is sorted, and entities that compare equal keep their order; which way is what `OData.OutOfOrderIff` says |
| OData.SortsIff | src/serialization/odata.c:968-1013 | all lists of some entities come out sorted if and only if the comparison is transitive on the entities |
| OData.SortedIsUnique | src/serialization/odata.c:968-1013 | two sorted lists with the same classes of equals in the same orders are the same list |
| OData.StableSortIsOrderBy | src/serialization/odata.c:968-1013 | a list is the result of the sort if and only if it is a stable sort of the input |
| OData.CommuteIff | src/serialization/odata.c:1169-1187 | sort after filter equals filter after sort, on all lists of some entities and for all filters, if and only if the comparison is transitive on the entities |
| OData.FilterAndOrderCommute | src/serialization/odata.c:1169-1187 | on a list on which the comparison is transitive they commute |
| OData.ComparableCommute | src/serialization/odata.c:1169-1187 | and so they do with numbers, or strings, or nothing comparable throughout under each key |
| OData.StuckTriple | src/serialization/odata.c:968-1013 | three entities at which transitivity fails are left alone by the sort, and the outer two exchanged without the one between |
| OData.MixedTypesDoNotCommute | src/serialization/odata.c:1169-1187 | with mixed types under a key there are such entities |
| OData.OrderByIdempotent | src/serialization/odata.c:968-1013 | sorting a sorted list changes nothing |
| OData.PagesTile | src/serialization/odata.c:1015-1051 | pages of any size, end to end, are exactly the list |
| OData.PagedIsSelectionIff | src/serialization/odata.c:1015-1051 | the page is what $top and $skip select if and only if $top is positive or nothing is left to take |
| OData.PagedAtTheEdges | src/serialization/odata.c:1020-1036 | a $top of zero takes all that is left, and the page is empty exactly for a negative $skip or one past the end |
| OData.WholeResponse | src/serialization/odata.c:1151-1214 | without $top and $skip the response has every entity that passes the filter, as often as it is given, and no other, in the direction of the items |
| OData.PagedResponse | src/serialization/odata.c:1189-1203 | with them it is, in the same order, the part of that from $skip on, of $top entities if $top is positive and so many are left |
| OData.ApplyFilter | src/serialization/odata.c:915-938 | the loop keeps exactly the entities that pass, in order; an empty list fails and changes nothing |
| OData.ShouldSwap | src/serialization/odata.c:983-1001 | the loop over the keys swaps if and only if by the first key that tells the two apart the second is to stand first, said in the values |
| OData.ApplyOrderBy | src/serialization/odata.c:968-1013 | the nested loops over the array's first cells compute the sort, and leave the other cells; the values under the first item's property, if all numbers or all strings, then rise, or fall with " desc", and the leading keys are followed as far as they compare |
| OData.ApplyPaging | src/serialization/odata.c:1015-1051 | the page, with its bounds cut to the list |
| OData.GenerateResponse | src/serialization/odata.c:1151-1214 | filter, then sort, then page; without paging every entity that passes is there as often as before and no other, with it the page of that; the entities go the way the items say; without a filter the caller's own array is left sorted |
| OData.FetchAllPages | src/serialization/odata.c:1151-1214 | a client that asks for every page collects exactly the filtered and sorted collection, although the first request may reorder it under the later ones |
| CrossCoreMutex.StepInv | platform/nrf54l15/shared/shared_memory.c:142-294 | every step of every thread, but a release of another thread's spinlock on timeout, keeps the invariant of spinlock, owner fields and counts |
| CrossCoreMutex.SpinStepIff | platform/nrf54l15/shared/shared_memory.c:242-249 | a step breaks the spinlock if and only if it is a timed-out waiter's release while another thread of its core is inside |
| CrossCoreMutex.RunInv | platform/nrf54l15/shared/shared_memory.c:142-294 | the invariant holds in every state of every run |
| CrossCoreMutex.MutualExclusion | platform/nrf54l15/shared/shared_memory.c:203-294 | in every run without such a release, for any number of threads and with timeouts, at most one thread holds the mutex |
| CrossCoreMutex.AloneRun | platform/nrf54l15/shared/shared_memory.c:242-249 | a run whose timeouts come from the only threads of their cores has no such release |
| SharedCoreTimeouts.ExclusionIff | platform/nrf54l15/shared/shared_memory.c:203-294 | for every set of threads and every set of threads that may use timeouts: all runs keep at most one holder if and only if no thread of the latter shares its core with another |
| SharedCoreTimeouts.SharedCoreFails | platform/nrf54l15/shared/shared_memory.c:242-249 | for any two threads of one core, one of which may use timeouts, a run among any others at whose end both hold the mutex |
| CrossCoreMutex.HolderOwns | platform/nrf54l15/shared/shared_memory.c:203-294 | in every state a holder outside a call is the owner, and `recursion_count` is its locks less its unlocks |
| CrossCoreMutex.OwnerIsHolder | platform/nrf54l15/shared/shared_memory.c:203-294 | while the spinlock is free, a thread outside a call is the owner if and only if its locks outnumber its unlocks |
| CrossCoreMutex.OwnerFieldsGuarded | platform/nrf54l15/shared/shared_memory.c:203-294 | owner fields and count change only by the thread inside the spinlock, which its core has locked and no other thread is inside |
| CrossCoreMutex.QuiescentIsFree | platform/nrf54l15/shared/shared_memory.c:271-294 | when nobody is in a call and nobody holds a lock, mutex and spinlock are free |
| CrossCoreMutex.LockTakesFree | platform/nrf54l15/shared/shared_memory.c:203-268 | a lock call that moves alone and finds mutex and spinlock free has returned true after seven steps, as owner with count one |
| CrossCoreMutex.LockNests | platform/nrf54l15/shared/shared_memory.c:211-218 | the owner's has returned true after five, with one more on the count and nothing else changed |
| CrossCoreMutex.LockWaits | platform/nrf54l15/shared/shared_memory.c:219-240 | any other's is waiting after six at most, with its core marked, the spinlock free again and the owner untouched |
| CrossCoreMutex.WaiterTakesFree | platform/nrf54l15/shared/shared_memory.c:236-268 | a waiter that finds the mutex free takes it, and one that does not changes nothing and waits again |
| CrossCoreMutex.TimeoutReturns | platform/nrf54l15/shared/shared_memory.c:242-249 | a waiter that times out takes its core's mark back, unlocks the spinlock if its own core has it, and returns false |
| CrossCoreMutex.UnlockNests | platform/nrf54l15/shared/shared_memory.c:271-294 | the owner's unlock takes one off a count above one, and leaves it owner |
| CrossCoreMutex.UnlockFrees | platform/nrf54l15/shared/shared_memory.c:271-294 | and frees the mutex with the last |
| CrossCoreMutex.ForeignUnlock | platform/nrf54l15/shared/shared_memory.c:271-294 | any other's unlock changes nothing |
| CrossCoreMutex.FailsOnlyTimed | platform/nrf54l15/shared/shared_memory.c:203-268 | in every run, whatever the other threads do, a lock call that returns false has a timeout, and one that returns true does so from inside the spinlock |
| CoreBarrier.StepInv | platform/nrf54l15/shared/core_sync.c:46-107 | every step keeps the barrier's invariant |
| CoreBarrier.NonePassesEarly | platform/nrf54l15/shared/core_sync.c:46-95 | in every run, timeouts included, a wait has returned true only after every core entered |
| CoreBarrier.NonePassesUnreleased | platform/nrf54l15/shared/core_sync.c:82-107 | in every run, timeouts included, a wait has returned true only after a call of `core_barrier_release`, which has set the bits of all cores |
| CoreBarrier.WaitsForRelease | platform/nrf54l15/shared/core_sync.c:82-95 | before the first release, every thread that waits for it goes on waiting |
| CoreBarrier.SettledForGood | platform/nrf54l15/shared/core_sync.c:46-107 | without timeouts, all arrived and released is a stable state |
| CoreBarrier.SettledStep | platform/nrf54l15/shared/core_sync.c:46-95 | in that state each poll of a waiting thread succeeds |
| CoreBarrier.UntimedNeverFails | platform/nrf54l15/shared/core_sync.c:46-95 | in every run a thread none of whose calls had a timeout has never been turned away |
| CoreBarrier.ApartIff | platform/nrf54l15/shared/core_sync.c:46-95 | for any number of threads: the cores are set apart exactly by a poll that succeeds before another core's withdrawal, or a timeout after another core's success |
| CoreBarrier.PartsIff | platform/nrf54l15/shared/core_sync.c:46-95 | with one thread on each core, in every run, exactly by the former |
| CoreBarrier.SplitNeedsParting | platform/nrf54l15/shared/core_sync.c:46-95 | and no run lets one core through and turns the other away without such a step |
| CoreBarrier.PartingSplits | platform/nrf54l15/shared/core_sync.c:46-107 | while after it a withdrawal, a release and a poll do |
| CoreBarrier.TimeoutCanSplit | platform/nrf54l15/shared/core_sync.c:46-95 | there is such a run |
| Kernel.BestIff | src/kernel/scheduler.c:100-120 | the scan picks a thread if and only if it is ready or running, of highest priority among those that are, and the first created of that priority |
| Kernel.StepKeepsInv | src/kernel/thread.c:26-94 | every call followed by its switch keeps the kernel invariant |
| Kernel.RunKeepsInv | src/kernel/thread.c:26-94 | and so does every run of calls |
| Kernel.HighestPriorityRuns | platform/nrf54l15/m33/context_switch.c:205-217 | in every run from boot no switch is pending, no thread is listed twice, and the current thread is ready or running, of highest priority among those that are, and earliest created among equals |
| Kernel.OnlyReadyOrRunningRun | src/kernel/scheduler.c:100-120 | in every run from boot no blocked, sleeping or terminated thread is the current one |
| Kernel.ExitIsFinal | src/kernel/thread.c:86-94 | the caller of exit is terminated after the switch, and another thread is current |
| Kernel.ExitedNeverRuns | src/kernel/thread.c:86-94 | a terminated thread stays so, and is current in no later state of any run |
| Kernel.CreatePreemptsIff | src/kernel/thread.c:26-71 | while the pool lasts, a new thread is ready at the head of the list, and takes the processor if and only if its priority is above that of all that are ready or running |
| Kernel.LateSwitchIff | src/kernel/scheduler.c:115-119 | after any calls without a switch, the switch installs the best thread if and only if the current one is not the best in the end or was so after every call |
| Kernel.LateSwitchFails | src/kernel/scheduler.c:115-119 | a sleep and a tick before the switch, which then installs a thread over a better one |
| Kernel.SleepStarts | src/kernel/thread.c:77-84 | the caller of sleep is asleep with its count after the switch |
| Kernel.SleepsUntilThen | src/kernel/scheduler.c:122-153 | a thread with n ticks to sleep stays asleep, and is not the current one, through any run of fewer than max(n, 1) ticks |
| Kernel.WakesExactlyThen | src/kernel/scheduler.c:122-153 | the tick that makes it max(n, 1) makes it ready |
| Kernel.NothingWakesBefore | src/kernel/scheduler.c:39-58 | before the shortest count, ticks change counts and the clock only |
| Kernel.TicklessJump | src/kernel/scheduler.c:39-58 | a positive answer s of the oracle: s ticks one by one are one jump of s ticks |
| Kernel.TicklessIsExact | src/kernel/scheduler.c:39-58 | the ticks before s wake nobody, tick s wakes exactly the sleepers whose count was s, and there is one |
| Kernel.OracleZeroIff | src/kernel/scheduler.c:39-58 | the oracle answers zero exactly if a sleeper's count is zero or no sleeper's count is below the sentinel |
| Scheduler.Scheduler.constructor | src/kernel/scheduler.c:74-92 | the idle thread alone, current, in a list that ends, before a pool of unused, zeroed blocks |
| Scheduler.Scheduler.FindBest | src/kernel/scheduler.c:100-113 | the walk over the linked list finds the thread the model picks: a ready or running one, and none that is ready or running has a higher priority; null only if there is none |
| Scheduler.Scheduler.Reschedule | src/kernel/scheduler.c:100-120 | the pending thread is set exactly when the best is not the current one |
| Scheduler.Scheduler.PendSV | platform/nrf54l15/m33/context_switch.c:205-217 | the pending thread becomes the current one and nothing stays pending |
| Scheduler.Scheduler.WakeSleepers | src/kernel/scheduler.c:122-153 | the walk counts every sleeper down and readies those at zero |
| Scheduler.Scheduler.Tick | src/kernel/scheduler.c:122-153 | clock, counts and choice after a tick; the list stays linked, acyclic and without repetition |
| Scheduler.Scheduler.CalculateSleep | src/kernel/scheduler.c:39-58 | the walk finds the shortest sleep, or zero |
| Scheduler.Scheduler.AddThread | src/kernel/scheduler.c:163-167 | the thread stands at the head of the same list |
| Scheduler.Scheduler.RemoveThread | src/kernel/scheduler.c:169-186 | a listed thread is unlinked and the others keep their order; another changes nothing |
| Scheduler.Scheduler.Sleep | src/kernel/thread.c:77-84 | the current thread's state and count, and the choice |
| Scheduler.Scheduler.Exit | src/kernel/thread.c:86-94 | the current thread is terminated, and the choice |
| Scheduler.Scheduler.Create | src/kernel/thread.c:26-71 | the new id and the thread at the head, or 0 exactly if the pool is used up |
| Scheduler.Scheduler.Perform | src/kernel/thread.c:26-94 | any call with the switch behind it takes the object from one state of the model to the next |
| Scheduler.Drive | src/kernel/scheduler.c:74-167 | a scheduler booted and driven through any run is in the state of the model's run, with the right thread running, and no blocked, sleeping or terminated one |
| Timers.TimerList.Start | src/kernel/timer.c:23-41 | a listed timer stays where it is, another enters at the head |
| Timers.TimerList.Stop | src/kernel/timer.c:43-63 | the timer is unlinked, the others keep their order, and its own link is kept for the walk |
| Timers.TimerList.Tick | src/kernel/timer.c:65-84 | despite deletion during the walk: the list is the old one in order, without due one-shots, with due periodic ones re-armed at now + period, and the callbacks called are those of the due timers, in order |
| Timers.FiresEachDueOnce | src/kernel/timer.c:65-84 | a tick calls the callback of each listed timer whose expiry is at or before the tick once, and no other |
| Timers.LeftMeans | src/kernel/timer.c:65-84 | listed after a tick are exactly the entries whose expiry is after it and the others that are periodic, re-armed |
| Timers.LeftStaysDistinct | src/kernel/timer.c:65-84 | no timer becomes listed twice |
| Timers.FiringUnlists | src/kernel/timer.c:73-80 | a one-shot that fires is off the list |
| Timers.TimerList.Perform | src/kernel/timer.c:23-84 | any start, stop or tick changes list and callbacks as the operation on values does |
| Timers.OneShotFiresOncePerStart | src/kernel/timer.c:23-84 | in every run of these operations on values a one-shot fires at most once per start |
| Timers.OneShotFiresIff | src/kernel/timer.c:23-84 | a listed one-shot that is left alone fires in a run, once, if and only if a tick comes at or after its expiry |
| FreeList.InsertKeepsOrder | src/mm/shared_heap.c:130-160 | an insert of a block apart from the others keeps the list address-sorted and without overlap, and adds that block only |
| FreeList.CoalescedIsSeparated | src/mm/shared_heap.c:676-707 | defragmentation keeps the list sorted and without overlap, and leaves no two adjacent blocks |
| FreeList.CoalescedCovers | src/mm/shared_heap.c:676-707 | it neither gains nor loses a byte |
| FreeList.RunKeepsOrder | src/mm/shared_heap.c:130-177 | any run of inserts, removals and defrags keeps the list sorted and without overlap |
| FreeList.OpCovers | src/mm/shared_heap.c:130-177 | after each operation the covered bytes are those before, with the inserted block's or without the removed one's |
| FreeList.FitsIff | src/mm/shared_heap.c:180-201 | in a block inside the address space an aligned stretch of the size lies in the data if and only if the fit test passes and its sum did not wrap |
| FreeList.PaddingIsLeast | src/mm/shared_heap.c:186-187 | the padded start is the least multiple of the alignment not below the data |
| FreeList.WrappedRequestFits | src/mm/shared_heap.c:190-194 | a request that passes although there is no room |
| FreeList.FreeList.Add | src/mm/shared_heap.c:130-160 | both chains of pointers run through the old list with the block in its place |
| FreeList.FreeList.Remove | src/mm/shared_heap.c:163-177 | both chains run through the old list without the block |
| FreeList.FreeList.Find | src/mm/shared_heap.c:180-201 | for every size and alignment: null if and only if no block passes the test, otherwise the first of the smallest that pass |
| FreeList.FreeList.Defrag | src/mm/shared_heap.c:676-707 | terminates with the coalesced list, doubly linked, and returns the drop in length |
| Pool.Pool.constructor | src/mm/pool.c:5-26 | the link words chain all blocks in order |
| Pool.Pool.Alloc | src/mm/pool.c:28-36 | null if and only if all blocks are outstanding, otherwise a block start that was not; memory is untouched |
| Pool.Pool.Free | src/mm/pool.c:38-44 | the block is free again, and only its own bytes change |
| Pool.Pool.ClientWrite | src/mm/pool.c:28-44 | a client's write to any byte of an outstanding block changes that byte only and leaves the chain |
| Pool.Pool.Conservation | src/mm/pool.c:5-44 | outstanding and free blocks together are all blocks |
| Pool.ChainKept | src/mm/pool.c:28-44 | bytes changed inside a block off the chain leave the chain |
| Pool.ChainPushed | src/mm/pool.c:38-44 | a block pointing at the head extends the chain |
| Pool.ChainPopped | src/mm/pool.c:28-36 | the head's link word leads to the rest of the chain |
| Alignment.AlignUpIsLeast | src/mm/memory_view.c:7-9 | the bit mask gives the least multiple of a power of two not below the address |
| Alignment.AlignUpWraps | src/mm/memory_view.c:7-9 | past the last multiple it gives zero |
| Bits.PowerOfTwoTest | src/mm/memory_view.c:117-119 | a word has no bit in common with its predecessor if and only if it is a power of two |
| Arena.TestMeans | src/mm/memory_view.c:117-119 | the arena's alignment test passes for powers of two and for zero, and for nothing else |
| Arena.GrantedInsideIff | src/mm/memory_view.c:130-160 | granted memory lies inside the buffer if and only if the sums did not wrap, and then is aligned and ends where the used part ends |
| Arena.WrappedRequestIsGranted | src/mm/memory_view.c:130-160 | a request whose sum wraps, granted beyond the buffer |
| Arena.Arena.Init | src/mm/memory_view.c:112-128 | succeeds exactly for a buffer, a size and a power of two |
| Arena.Arena.Alloc | src/mm/memory_view.c:130-160 | whatever wraps, memory is aligned as asked, or as the arena is if nothing is asked, and an alignment that is no power of two gives null; without wrap: null exactly if the request is empty, misaligned or does not fit, and all regions since the last reset stay aligned, inside the buffer and apart |
| Arena.Arena.Reset | src/mm/memory_view.c:170-174 | nothing is used and nothing is live |
| Arena.Arena.Remaining | src/mm/memory_view.c:176-181 | used and remaining add up to the size |

## Left out

- EdfNesting.SkippedIff: arrays with false end markers inside; what follows one there is read as an element of its own, so whether the skip recovers depends on the bytes, as the array lemma shows, and not on the ids.
- Edf.SkipValue: inputs on which a sum wraps, where the code need not end; `EdfWrap.SkipIn` gives what it does there for any number of steps.
- EDF reads of scalars, strings and byte strings: the scalar reads are the fixed words of Protobuf.ReadWord again, and the 64-bit ones shift a promoted int by 32 bits or more.
- Protobuf.FieldsRoundTrip: `mp_protobuf_write_int32` and the enum writer count as unsigned fields, since they pass a negative value on as a 32-bit word (the encoding specification extends its sign to 64 bits); floats, doubles and booleans, which reinterpret such words, have no kind of their own.
- The unfinished message encoders and the schema lookup of EDF and protobuf.
- JsonConformance.JsonParses: texts in which escapes from \u0080 on, which stand for several bytes, or numbers with a fraction or an exponent occur: the reader of the grammar refuses them.
- JsonRoundTrip.RoundTripIff: numbers that are not integers are not covered, since nothing is assumed of `%.15g` and `strtod`.
- JsonGenerator.Generator.constructor: a generator over a caller's own fixed buffer, which drops what does not fit, and a realloc that fails.
- JsonParser.Parser.ReadValue: error texts and positions, allocation failures, the growth of element arrays, and who frees a node; values without a C representation (the error type, object keys that are not strings, null pointers in a tree).
- JsonParser.Parser.SkipAllBlanks: the same blanks are skipped again by the callee in the source; the model skips them wherever the source does.
- JsonTree.EqualIsSameMeaning: with repeated keys or doubles there is no reading as such a map; NaN, which equals nothing, is not a real number.
- JSON object add, remove and key listing, and array add: easy next to the rest.
- OData.GenerateResponse: select, expand, count, error responses, wrapping in a context, and option parsing, whose key length also covers the value; the syntax that evaluate_filter reads; sort properties longer than the 255 characters of their buffer.
- CrossCoreMutex.MutualExclusion: fairness and progress under contention. Waiting by cycles is a nondeterministic timeout.
- CoreBarrier.SplitNeedsParting: several threads on one core, for which the steps that set cores apart are exact, but a split can also follow a timeout.
- CoreBarrier.SettledForGood: a second use of the barrier without a new initialisation, whose bits are never cleared.
- `core_rendezvous` and the handshake, where the first core to see the other clears both flags; mailboxes, events and semaphores of the platform.
- Kernel.HighestPriorityRuns: the idle thread is assumed neither to sleep nor to exit; register saving, stacks, the stack high-water scan, join's busy wait, and blocked threads of the message queue are left out. Ticks and ids are unbounded.
- Timers.TimerList.Tick: callbacks that start or stop timers, and re-creating a listed timer, which clears its link.
- FreeList.FreeList.Find: headers lie below the end of the address space; the heap's allocation counters, splitting, merging on free, and freeing of padded pointers are left out.
- Pool.Pool.constructor: null arguments, zero blocks, and blocks smaller than a pointer, which the source does not check; freeing a null pointer does nothing there.
- Arena.Arena.Alloc: the alignment is the word's, and regions are addresses; clearing memory and views are left out.
- The garbage collector, the TLSF allocator, IPC, devices, networking, the shell and the bootloader.
