# Sandbox2D core in Dafny

Sandbox2D is a 2D block-building game written in Java. A server holds a
layered block grid and a list of entities. Clients connect over a small
reliable-UDP protocol. This project models the sequential core of the game
and proves properties of that model:

- **Byte codecs** (`Bytes`, `ByteUtil`, `DataReader`, `Serializer`):
  - big-endian integers, shorts, longs and booleans;
  - splitting a byte array into packets and concatenating arrays;
  - a cursor-based reader;
  - the type-tagged object frame `[type: short][length: int][payload]` with
    its class/builder registry.
- **Player state** (`Protocol`): movement flags and the selected inventory
  slot packed into one short, plus the protocol's size constants.
- **World data** (`BlockGrid`, `World`, `Inventory`, `Utility`,
  `UtilityWorld`):
  - the layered grid stored in one flat array;
  - entity bookkeeping, where the entity list and the ID map agree;
  - the fixed-slot inventory;
  - the block break/place rules and the fixed-timestep update loop.
- **Reliable-UDP sequencing** (`Sequencing`, `Server`, `UpdateClient`):
  - per-peer message-ID counters that accept, re-acknowledge or drop packets;
  - send queues whose reliable head blocks everything behind it;
  - the server's client status machine;
  - the client's world download.
- **Small state machines**:
  - the server console's command registry and queue (`CommandParser`);
  - the sorted button table of the input controls (`Controls`);
  - the code-point text editor (`EditableText`);
  - the RIFF/WAVE PCM header parser (`Wave`).

Conventions used throughout:

- Java's `byte`, `short`, `int` and `long` are subset types of `int`
  (module `Java`). Casts and overflow are written out with `Wrap`, and
  Java's truncating `/` and `%` with `TruncDiv` and `TruncMod`. The
  exceptions are the byte-array length sums of the concatenation and
  collection helpers and of `World.getBytesFiltered`, and the array
  reader's index after a read: there the model adds without wrapping, and
  "Weaker contracts" below names each member.
- A thrown exception is an `Err` value of the `Java.Exception` datatype.
- Socket writes are appended to a `sent` log, and listener calls to an
  event log. The clock is a `now` parameter.
- Where the Java code mutates fields, the model is a class whose methods
  state the whole new state. Each method is tied to a specification function
  whose properties are proved as lemmas.

## Model

| member | source | states |
|---|---|---|
| Bytes.GetUnsignedByte | shared/src/ritzow/sandbox/data/Bytes.java:131-133 | the result is in 0..255 and its low eight bits are the stored byte |
| Bytes.GetInteger | shared/src/ritzow/sandbox/data/Bytes.java:143-148 | the four bytes at `index`, read big-endian, as a signed 32-bit int |
| Bytes.GetShort | shared/src/ritzow/sandbox/data/Bytes.java:158-160 | the two bytes at `index`, read big-endian, as a signed 16-bit short |
| Bytes.GetStringLength | shared/src/ritzow/sandbox/data/Bytes.java:170-172 | the stored length plus four, whenever that sum does not overflow |
| Bytes.IntBytes | shared/src/ritzow/sandbox/data/Bytes.java:184-189 | the bytes `putInteger` stores are the value's four low-order bytes, most significant first |
| Bytes.ShortBytes | shared/src/ritzow/sandbox/data/Bytes.java:198-201 | the bytes `putShort` stores are the value's two low-order bytes, most significant first |
| Bytes.BooleanByte | shared/src/ritzow/sandbox/data/Bytes.java:203-205 | `putBoolean` stores 1 or 0 |
| Bytes.BEEncode | shared/src/ritzow/sandbox/data/Bytes.java:143-148 | the big-endian reading of an n-byte encoding is the value modulo 256^n |
| Bytes.EncodeBE | shared/src/ritzow/sandbox/data/Bytes.java:184-189 | encoding the big-endian reading of a byte string gives the string back |
| Bytes.IntegerRoundTrip | shared/src/ritzow/sandbox/data/Bytes.java:184-189 | `getInteger` reads back whatever int `putInteger` stored, whatever surrounds it (`ByteUtil.java:116-121` has the same bodies) |
| Bytes.IntegerEncodeDecode | shared/src/ritzow/sandbox/data/Bytes.java:143-148 | storing the int that `getInteger` read restores the same four bytes |
| Bytes.ShortRoundTrip | shared/src/ritzow/sandbox/data/Bytes.java:198-201 | `getShort` reads back whatever short `putShort` stored (`ByteUtil.java:123-126` has the same bodies) |
| Bytes.ShortEncodeDecode | shared/src/ritzow/sandbox/data/Bytes.java:158-160 | storing the short that `getShort` read restores the same two bytes |
| Bytes.BooleanRoundTrip | shared/src/ritzow/sandbox/data/Bytes.java:162-164 | `getBoolean` reads back whatever `putBoolean` stored (`ByteUtil.java:128-130` has the same bodies) |
| Bytes.GetBoolean | shared/src/ritzow/sandbox/data/Bytes.java:162-164 | no contract of its own: only the byte 1 reads as true; `BooleanRoundTrip` proves it reads back what `putBoolean` stored |
| Bytes.LongRoundTrip | shared/src/ritzow/sandbox/data/Bytes.java:150-155 | `getLong` reads back the long whose eight bytes `putLong` stores |
| Bytes.PutInteger | shared/src/ritzow/sandbox/data/Bytes.java:184-189 | the array afterwards is the old one with bytes `index..index+4` replaced by the encoding, nothing else changed |
| Bytes.PutShort | shared/src/ritzow/sandbox/data/Bytes.java:198-201 | the two bytes at `index` replaced by the encoding, nothing else changed |
| Bytes.PutBoolean | shared/src/ritzow/sandbox/data/Bytes.java:203-205 | the byte at `index` replaced by 1 or 0, nothing else changed |
| Bytes.PutLong | shared/src/ritzow/sandbox/data/Bytes.java:191-196 | the shift-right loop leaves the eight-byte big-endian encoding at `index`, nothing else changed |
| Bytes.GetLong | shared/src/ritzow/sandbox/data/Bytes.java:150-155 | the shift-left loop in long arithmetic computes the value of the eight bytes |
| Bytes.OfShort | shared/src/ritzow/sandbox/data/Bytes.java:270-274 | a fresh two-byte array holding the encoding |
| Bytes.OfInt | shared/src/ritzow/sandbox/data/Bytes.java:276-280 | a fresh four-byte array holding the encoding |
| Bytes.OfLong | shared/src/ritzow/sandbox/data/Bytes.java:282-286 | a fresh eight-byte array holding the encoding |
| Bytes.PutBytesWithLength | shared/src/ritzow/sandbox/data/Bytes.java:207-211 | stores the length then the bytes at `index` and returns length + 4 |
| Bytes.StringLengthRoundTrip | shared/src/ritzow/sandbox/data/Bytes.java:170-172 | `getStringLength` over what `putBytesWithLength` wrote is the number of bytes it wrote |
| Bytes.Copy | shared/src/ritzow/sandbox/data/Bytes.java:119-121 | the source lands at `offset` and every other byte is unchanged; an out-of-range copy throws and writes nothing (`ByteUtil.java:84-86` has the same body) |
| Bytes.SubArray | shared/src/ritzow/sandbox/data/Bytes.java:123-127 | a fresh copy of the requested slice; a negative length or an out-of-range slice gives the matching exception (`ByteUtil.java:88-92` has the same body) |
| Bytes.Expand | shared/src/ritzow/sandbox/data/Bytes.java:108-112 | a fresh array holding the source followed by zeros; a negative size or a too short copy throws |
| Bytes.ConcatenateInto | shared/src/ritzow/sandbox/data/Bytes.java:69-81 | the arrays without their headers, one after another from `offset`, nothing else changed, and the count written; a negative offset or header size throws |
| Bytes.ConcatenateAt | shared/src/ritzow/sandbox/data/Bytes.java:89-96 | a fresh array of `offset` zeros followed by the arrays, or the exception a negative offset causes; the length sum is not wrapped (see Weaker contracts) |
| Bytes.ConcatenateSized | shared/src/ritzow/sandbox/data/Bytes.java:98-102 | a fresh array of `offset + totalBytes` bytes with the arrays after `offset` and zeros elsewhere |
| Bytes.Concatenate | shared/src/ritzow/sandbox/data/Bytes.java:104-106 | a fresh array holding the arrays one after another, for arrays whose total length the model adds without wrapping |
| Bytes.FlattenAppend | shared/src/ritzow/sandbox/data/Bytes.java:75-79 | concatenating two lists of arrays is concatenating their concatenations |
| Bytes.SerializeEach | shared/src/ritzow/sandbox/data/Bytes.java:44-49 | the loop collects each element's serialization, in order, and the sum of their lengths |
| Bytes.SerializeCollection | shared/src/ritzow/sandbox/data/Bytes.java:40-54 | a four-byte element count followed by each element's serialization, in order; the byte count is not wrapped (see Weaker contracts) |
| Bytes.ArrayCount | shared/src/ritzow/sandbox/data/Bytes.java:27 | the smallest number of `length`-byte pieces that cover the source |
| Bytes.Piece | shared/src/ritzow/sandbox/data/Bytes.java:30-33 | every piece is non-empty and at most `length` bytes |
| Bytes.SplitSlots | shared/src/ritzow/sandbox/data/Bytes.java:28-36 | `extraArrays` plus the piece count slots, filled only while the counter is at most the piece count |
| Bytes.Split | shared/src/ritzow/sandbox/data/Bytes.java:26-38 | for non-negative `padding` and `extraArrays`: without an extra slot the loop stores out of bounds and throws; otherwise the slots are exactly `SplitSlots` |
| Bytes.IntendedSplitSlots | shared/src/ritzow/sandbox/data/Bytes.java:18-25 | `extraArrays` empty slots followed by one slot per piece |
| Bytes.SplitIntended | shared/src/ritzow/sandbox/data/Bytes.java:18-25 | for non-negative `padding` and `extraArrays`, the loop with the documented bound fills exactly `IntendedSplitSlots` |
| Bytes.SplitOneExtra | shared/src/ritzow/sandbox/data/Bytes.java:29 | with one extra slot, the only way callers use `split`, the written and the documented results agree |
| Bytes.IntendedSplitShape | shared/src/ritzow/sandbox/data/Bytes.java:18-25 | every packet slot holds `padding` zero bytes then between 1 and `length` data bytes; the extra slots are empty |
| Bytes.IntendedPayloads | shared/src/ritzow/sandbox/data/Bytes.java:30-34 | the data of the packet slots are the pieces, in order |
| Bytes.PiecesCover | shared/src/ritzow/sandbox/data/Bytes.java:29-36 | the first `c` pieces joined are the source up to where the `c`-th piece ends |
| Bytes.IntendedSplitCovers | shared/src/ritzow/sandbox/data/Bytes.java:18-25 | the packets' data, joined in order, are the whole source |
| Bytes.SplitTwoExtraDropsData | shared/src/ritzow/sandbox/data/Bytes.java:29 | with two extra slots a one-byte source is split into three empty slots instead of keeping its byte |
| ByteUtil.ConcatenateInto | shared/src/ritzow/sandbox/data/ByteUtil.java:45-54 | the arrays one after another from `offset`, nothing else changed, and the count written; a negative offset throws |
| ByteUtil.ConcatenateAt | shared/src/ritzow/sandbox/data/ByteUtil.java:62-67 | as written: `offset` zeros, the arrays, then `offset` more zeros |
| ByteUtil.ConcatenateAtPadsTwice | shared/src/ritzow/sandbox/data/ByteUtil.java:63 | one one-byte array at offset 4 yields nine bytes where five are meant |
| ByteUtil.ConcatenateSized | shared/src/ritzow/sandbox/data/ByteUtil.java:69-73 | a fresh array of `offset + totalBytes` bytes with the arrays after `offset` and zeros elsewhere |
| ByteUtil.Concatenate | shared/src/ritzow/sandbox/data/ByteUtil.java:75-77 | with offset 0 the extra padding is empty: exactly the arrays one after another |
| ByteUtil.SerializeCollection | shared/src/ritzow/sandbox/data/ByteUtil.java:17-31 | a four-byte element count followed by each element's serialization, in order |
| DataReader.IndexAfter | shared/src/ritzow/sandbox/data/ByteArrayDataReader.java:68-71 | after `n` single-byte reads the index has moved by `n`, or stopped one past the first position outside the array |
| DataReader.CompactBooleans | shared/src/ritzow/sandbox/data/ByteArrayDataReader.java:59-66 | eight flags, flag `i` being bit `i` of the byte |
| DataReader.ByteArrayDataReader.Remaining | shared/src/ritzow/sandbox/data/ByteArrayDataReader.java:11-13 | no contract of its own: the bytes after the index, negative once the index has run past the end; the `Read*` methods state their bounds checks through `Available` |
| DataReader.ByteArrayDataReader.constructor | shared/src/ritzow/sandbox/data/ByteArrayDataReader.java:7-9 | a reader over the data at index 0 |
| DataReader.ByteArrayDataReader.Skip | shared/src/ritzow/sandbox/data/ByteArrayDataReader.java:15-22 | the index moves by `count` first in int arithmetic (by exactly `count` when the sum fits), then an index at or past the end throws |
| DataReader.SkipPastMaxWraps | shared/src/ritzow/sandbox/data/ByteArrayDataReader.java:15-17 | from index 10, skipping `Integer.MAX_VALUE` wraps the index to -2147483639, below any array length, so nothing is thrown |
| DataReader.ByteArrayDataReader.ReadByte | shared/src/ritzow/sandbox/data/ByteArrayDataReader.java:68-71 | the byte at the old index, the index one further even when the read throws |
| DataReader.ByteArrayDataReader.ReadInteger | shared/src/ritzow/sandbox/data/ByteArrayDataReader.java:43-46 | with four bytes available, `getInteger` of them and the index four further; otherwise IndexOutOfBounds and the index where the reads stopped |
| DataReader.ByteArrayDataReader.ReadShort | shared/src/ritzow/sandbox/data/ByteArrayDataReader.java:48-51 | with two bytes available, `getShort` of them; otherwise IndexOutOfBounds |
| DataReader.ByteArrayDataReader.ReadLong | shared/src/ritzow/sandbox/data/ByteArrayDataReader.java:34-41 | with eight bytes available, the value `getLong` computes; otherwise IndexOutOfBounds |
| DataReader.ByteArrayDataReader.ReadBoolean | shared/src/ritzow/sandbox/data/ByteArrayDataReader.java:53-56 | true exactly when the byte read is 1 |
| DataReader.ByteArrayDataReader.ReadCompactBooleans | shared/src/ritzow/sandbox/data/ByteArrayDataReader.java:58-66 | the eight bits of the byte read, lowest first |
| DataReader.ByteArrayDataReader.ReadBytes | shared/src/ritzow/sandbox/data/ByteArrayDataReader.java:73-81 | the next `count` bytes and the index moved past them, or IndexOutOfBounds and nothing moved |
| DataReader.ByteArrayDataReader.ReadBytesInto | shared/src/ritzow/sandbox/data/ByteArrayDataReader.java:83-90 | as written: copies only when more than `dest.length` bytes remain, and never moves the index |
| DataReader.ByteArrayDataReader.ReadBytesIntoIntended | shared/src/ritzow/sandbox/data/ByteArrayDataReader.java:83-90 | copies `dest.length - offset` bytes whenever that many remain, and moves the index past them |
| DataReader.IntegerFromBytes | shared/src/ritzow/sandbox/data/ByteArrayDataReader.java:44-45 | sign-extending the first byte gives the same int as `getInteger` |
| DataReader.ReadBytesIntoRefusesExactFit | shared/src/ritzow/sandbox/data/ByteArrayDataReader.java:85 | with exactly `dest.length` bytes left the copy is refused although they are available |
| DataReader.CompactBooleansRoundTrip | shared/src/ritzow/sandbox/data/ByteArrayDataReader.java:59-65 | eight flags packed into one byte unpack to the same flags |
| Inventory.FirstEmpty | shared/src/ritzow/sandbox/world/component/Inventory.java:66-71 | the first empty slot: every slot before it holds an item, and it is the slot count when all do |
| Inventory.CondenseStep | shared/src/ritzow/sandbox/world/component/Inventory.java:90-99 | one pass of the outer loop keeps the slots before and at `i` condensed and only swaps two slots |
| Inventory.EmptyStep | shared/src/ritzow/sandbox/world/component/Inventory.java:90-91 | an empty slot at `i` keeps the slots up to it condensed |
| Inventory.Inventory.constructor | shared/src/ritzow/sandbox/world/component/Inventory.java:12-14 | `capacity` empty slots |
| Inventory.Inventory.Get | shared/src/ritzow/sandbox/world/component/Inventory.java:52-55 | the slot's content; a slot outside the array is an ArrayIndexOutOfBoundsException |
| Inventory.Inventory.IsItem | shared/src/ritzow/sandbox/world/component/Inventory.java:57-59 | true exactly when `get(slot)` is not null, with the same exception |
| Inventory.Inventory.GetSize | shared/src/ritzow/sandbox/world/component/Inventory.java:61-63 | the capacity |
| Inventory.Inventory.FirstEmptySlot | shared/src/ritzow/sandbox/world/component/Inventory.java:66-67 | the search from slot 0 finds `FirstEmpty` |
| Inventory.Inventory.Add | shared/src/ritzow/sandbox/world/component/Inventory.java:65-73 | true exactly when some slot is empty, and then the item is in the first empty slot and nothing else changed; otherwise nothing changes |
| Inventory.Inventory.Put | shared/src/ritzow/sandbox/world/component/Inventory.java:75-80 | the previous content, with only that slot changed |
| Inventory.Inventory.Remove | shared/src/ritzow/sandbox/world/component/Inventory.java:82-87 | the previous content, with that slot emptied and nothing else changed |
| Inventory.Inventory.Condense | shared/src/ritzow/sandbox/world/component/Inventory.java:89-101 | the same items, as a multiset, with every item before every empty slot |
| Utility.Clamp | shared/src/ritzow/sandbox/util/Utility.java:75-78 | within `[min, max]` when `min <= max`, the value itself when it is in range, and `min` when `max < min` |
| Utility.SplitQuantity | shared/src/ritzow/sandbox/util/Utility.java:66-68 | an ArithmeticException exactly when the bucket size is 0 |
| Utility.SplitQuantityCounts | shared/src/ritzow/sandbox/util/Utility.java:66-68 | for a positive bucket size and a non-negative count: at most the count, the count itself when it fills no bucket |
| Utility.NanosToMillis | shared/src/ritzow/sandbox/util/Utility.java:256-258 | long division rounding toward zero: the result times a million is within a million of the input |
| Utility.MillisToNanos | shared/src/ritzow/sandbox/util/Utility.java:252-254 | no contract of its own: the long product by a million, wrapped; `MillisNanosRoundTrip` and `MillisNanosOverflow` state when it is exact |
| Utility.MillisNanosRoundTrip | shared/src/ritzow/sandbox/util/Utility.java:252-258 | milliseconds whose nanosecond count fits in a long come back unchanged |
| Utility.MillisNanosOverflow | shared/src/ritzow/sandbox/util/Utility.java:252-254 | 2^54 milliseconds overflow the long multiplication and do not come back |
| UtilityWorld.GetBlockBreakLayer | shared/src/ritzow/sandbox/util/Utility.java:121-123 | the top block layer of the cell, or INVALID_LAYER, as `getTopBlockLayer` finds it |
| UtilityWorld.GetBlockPlaceLayer | shared/src/ritzow/sandbox/util/Utility.java:125-132 | the highest empty layer of the cell, or -1 when every layer holds a block; outside the grid the first `isBlock` throws |
| UtilityWorld.IsBreakable | shared/src/ritzow/sandbox/util/Utility.java:134-136 | a block at `layer` and none in the layers in front of it |
| UtilityWorld.IsPlaceable | shared/src/ritzow/sandbox/util/Utility.java:138-148 | a non-negative layer with layers 0 to `layer` empty, backed by a block in the next layer or, in the last layer, by an adjacent block |
| UtilityWorld.ResendIntervalElapsed | shared/src/ritzow/sandbox/util/Utility.java:62-64 | no contract of its own: as written, `now` has reached `millisToNanos(RESEND_INTERVAL) * attempts + startTime` in long arithmetic; `ResendWaitsTooLong` shows it is late |
| UtilityWorld.ResendIntervalElapsedIntended | shared/src/ritzow/sandbox/util/Utility.java:62-64 | no contract of its own: `now` has reached `RESEND_INTERVAL * attempts + startTime` nanoseconds; `ResendSchedule` proves the schedule it gives |
| UtilityWorld.ResendWaitsTooLong | shared/src/ritzow/sandbox/util/Utility.java:62-64 | as written, one attempt started at 0 is not due after two intervals, nor after a whole day |
| UtilityWorld.ResendSchedule | shared/src/ritzow/sandbox/util/Utility.java:62-64 | the intended check is due exactly `attempts` intervals after the start, and the last resend falls due at the disconnect timeout |
| UtilityWorld.UpdateWorld | shared/src/ritzow/sandbox/util/Utility.java:102-115 | an elapsed time above the allowed maximum is an IllegalArgumentException with no update; otherwise steps of at most the timestep, all full but the last, adding up to the elapsed time, and `now` returned |
| UtilityWorld.StepCount | shared/src/ritzow/sandbox/util/Utility.java:109-113 | the number of updates is the elapsed time divided by the timestep, rounded up |
| Serializer.Frame | shared/src/ritzow/sandbox/data/SerializerReaderWriter.java:53-61 | a non-null object's frame is six header bytes followed by the payload unchanged |
| Serializer.Apply | shared/src/ritzow/sandbox/data/SerializerReaderWriter.java:121 | a builder never consumes more bytes than the reader holds |
| Serializer.ReadTyped | shared/src/ritzow/sandbox/data/SerializerReaderWriter.java:116-133 | success only when the type has a builder and the builder consumed exactly `length` bytes; the index then moves by `length` |
| Serializer.ReadObjectAt | shared/src/ritzow/sandbox/data/SerializerReaderWriter.java:86-99 | a successful read stays inside the bytes and moves forward; the null type takes exactly two bytes |
| Serializer.SerializerReaderWriter.constructor | shared/src/ritzow/sandbox/data/SerializerReaderWriter.java:14-17 | both lookup tables start empty |
| Serializer.SerializerReaderWriter.RegisterWrite | shared/src/ritzow/sandbox/data/SerializerReaderWriter.java:26-33 | identifier 0 and an already registered class are refused with nothing changed; otherwise the class gets the identifier |
| Serializer.SerializerReaderWriter.RegisterRead | shared/src/ritzow/sandbox/data/SerializerReaderWriter.java:35-40 | an identifier that already has a builder is refused with nothing changed; otherwise it gets the builder |
| Serializer.SerializerReaderWriter.Register | shared/src/ritzow/sandbox/data/SerializerReaderWriter.java:19-24 | the write side, then the read side; a refused read side leaves the write side registered |
| Serializer.SerializerReaderWriter.Serialize | shared/src/ritzow/sandbox/data/SerializerReaderWriter.java:42-63 | null is the null type alone; an unregistered class throws; a registered object is its frame |
| Serializer.SerializerReaderWriter.ReadObject | shared/src/ritzow/sandbox/data/SerializerReaderWriter.java:86-99 | the object `ReadObjectAt` describes, and the reader moved past it |
| Serializer.SerializerReaderWriter.ReadTypedObject | shared/src/ritzow/sandbox/data/SerializerReaderWriter.java:116-133 | the outcome `ReadTyped` describes, including both wrong-length errors |
| Serializer.SerializerReaderWriter.Deserialize | shared/src/ritzow/sandbox/data/SerializerReaderWriter.java:71-74 | `readObject` on a fresh reader over the bytes |
| Serializer.FrameFields | shared/src/ritzow/sandbox/data/SerializerReaderWriter.java:53-61 | the frame's first two bytes read as the type and the next four as the payload length |
| Serializer.FrameFilled | shared/src/ritzow/sandbox/data/SerializerReaderWriter.java:54-60 | the three writes of `serialize` over the zero-padded payload produce the frame |
| Serializer.SerializeRoundTrip | shared/src/ritzow/sandbox/data/SerializerReaderWriter.java:42-63 | a framed object whose builder reads exactly its payload is read back, and the reader ends right after it |
| Serializer.NullRoundTrip | shared/src/ritzow/sandbox/data/SerializerReaderWriter.java:45-46 | the null frame reads back as null after two bytes, whatever follows |
| Serializer.LengthMismatch | shared/src/ritzow/sandbox/data/SerializerReaderWriter.java:123-131 | a builder consuming other than the announced length is a serialization error |
| Serializer.UnregisteredType | shared/src/ritzow/sandbox/data/SerializerReaderWriter.java:118-120 | a non-null type without a builder is reported as unregistered |
| Serializer.Encoded | shared/src/ritzow/sandbox/data/SerializerReaderWriter.java:43-63 | every encoding is at least the two type bytes long |
| Serializer.ReadEncoded | shared/src/ritzow/sandbox/data/SerializerReaderWriter.java:42-99 | a readable object is written, and read back from wherever its encoding sits |
| Serializer.ReadObjectAtShift | shared/src/ritzow/sandbox/data/SerializerReaderWriter.java:86-99 | reading at an index depends only on the bytes from that index on |
| Serializer.ReadAll | shared/src/ritzow/sandbox/world/World.java:71-76 | `count` successful reads yield `count` objects, and reading none leaves the index alone |
| Serializer.EncodeAll | shared/src/ritzow/sandbox/world/World.java:94-99 | a successful encoding has one chunk per object |
| Serializer.ReadObjectsRoundTrip | shared/src/ritzow/sandbox/world/World.java:65-78 | readable objects written one after another are read back, in order, by as many `readObject` calls |
| Serializer.ReadAllChunks | shared/src/ritzow/sandbox/world/World.java:65-78 | chunks that each read back as their object read back one after another when concatenated |
| Serializer.ReadAllFails | shared/src/ritzow/sandbox/world/World.java:65-78 | once a read fails, reading more objects fails the same way |
| Serializer.EncodeAllFails | shared/src/ritzow/sandbox/world/World.java:94-99 | once a write fails, writing more objects fails the same way |
| Protocol.Sizes | shared/src/ritzow/sandbox/network/Protocol.java:27-35 | a message may be 1019 bytes, and ten resend intervals make up the one-second disconnect timeout |
| Protocol.BuildConsoleMessage | shared/src/ritzow/sandbox/network/Protocol.java:85-91 | the console message type in two bytes, then the message bytes; the type reads back and the rest is the message |
| Protocol.SlotOf | shared/src/ritzow/sandbox/network/Protocol.java:137 | `state >>> 8` on the widened short is non-negative and below 2^24 |
| Protocol.Player.constructor | shared/src/ritzow/sandbox/world/entity/PlayerEntity.java:22-24 | a player with no flags set and slot 0 |
| Protocol.Player.SetSlot | shared/src/ritzow/sandbox/world/entity/PlayerEntity.java:132-134 | a slot inside the inventory is stored, cast to a byte; any other slot is an IndexOutOfBoundsException and changes nothing |
| Protocol.GetState | shared/src/ritzow/sandbox/network/Protocol.java:120-130 | bits 0 to 5 are left, right, up, down, primary and secondary, bits 6 and 7 are clear, and the high byte is the selected slot |
| Protocol.GetStateBits | shared/src/ritzow/sandbox/network/Protocol.java:121-128 | the slot shifted into the high byte leaves the six flag bits as packed |
| Protocol.IsPrimary | shared/src/ritzow/sandbox/network/Protocol.java:112-114 | no contract of its own: bit 4 of the state; `ActionsRoundTrip` proves it gives back the flag `getState` packed |
| Protocol.IsSecondary | shared/src/ritzow/sandbox/network/Protocol.java:116-118 | no contract of its own: bit 5 of the state; `ActionsRoundTrip` proves it gives back the flag `getState` packed |
| Protocol.UpdatePlayer | shared/src/ritzow/sandbox/network/Protocol.java:132-138 | the four movement flags are bits 0 to 3; the slot is `state >>> 8`, stored when the inventory has it and refused otherwise |
| Protocol.ActionsRoundTrip | shared/src/ritzow/sandbox/network/Protocol.java:112-118 | `isPrimary` and `isSecondary` give back the action flags `getState` was given |
| Protocol.SlotRoundTrip | shared/src/ritzow/sandbox/network/Protocol.java:132-138 | for a non-negative slot `updatePlayer` reads back the four movement flags and the slot `getState` encoded |
| Protocol.NegativeSlotOverflows | shared/src/ritzow/sandbox/network/Protocol.java:128 | a negative `selected` comes back from `state >>> 8` as at least 2^24 - 128, which no inventory accepts |
| BlockGrid.ComputeBounds | shared/src/ritzow/sandbox/world/BlockGrid.java:133-146 | every valid coordinate's index lies inside the array of `layers * width * height` cells |
| BlockGrid.ComputeInjective | shared/src/ritzow/sandbox/world/BlockGrid.java:133-146 | two valid coordinates with the same index are the same coordinate: no two cells share an element |
| BlockGrid.ProductNoWrap | shared/src/ritzow/sandbox/world/BlockGrid.java:19 | with at least one row, the array size computed in int arithmetic is the true product whenever that fits |
| BlockGrid.FillSeq | shared/src/ritzow/sandbox/world/BlockGrid.java:156 | `Arrays.fill` keeps the array's length |
| BlockGrid.FillRows | shared/src/ritzow/sandbox/world/BlockGrid.java:150-158 | the loop keeps the array's length whichever row ends it |
| BlockGrid.FillOutcome | shared/src/ritzow/sandbox/world/BlockGrid.java:150-158 | `fill` succeeds exactly when every row's range fits, and then sets exactly the indices some row covers; otherwise the first refused row's exception, the rows before it filled |
| BlockGrid.RowBounds | shared/src/ritzow/sandbox/world/BlockGrid.java:151-156 | inside the grid the range arithmetic of a row does not overflow and stays within that row of the array |
| BlockGrid.FillCoversRectangle | shared/src/ritzow/sandbox/world/BlockGrid.java:148-158 | for a rectangle inside the grid, `fill` covers a cell exactly when it lies in the rectangle, in every layer |
| BlockGrid.FillRowsFit | shared/src/ritzow/sandbox/world/BlockGrid.java:150-158 | inside the grid every row's range is accepted by `Arrays.fill` |
| BlockGrid.Encoding | shared/src/ritzow/sandbox/world/BlockGrid.java:36-48 | what `getBytes` writes is at least the twelve header bytes long |
| BlockGrid.Decoding | shared/src/ritzow/sandbox/world/BlockGrid.java:25-34 | a header past the end is IndexOutOfBoundsException; a successful read keeps the three ints as read (width, height, layers) and has as many cells as their product wrapped to an int |
| BlockGrid.DecodeCellsWraps | shared/src/ritzow/sandbox/world/BlockGrid.java:29-32 | dimensions are read as they are: 65536 by 65536 by 1 reads no cell at all, the product wrapping to 0, and -1 by -1 by 1 reads one cell |
| BlockGrid.HeaderRoundTrip | shared/src/ritzow/sandbox/world/BlockGrid.java:44-46 | the three header ints read back as width, height and layers |
| BlockGrid.GridRoundTrip | shared/src/ritzow/sandbox/world/BlockGrid.java:36-48 | a grid whose blocks are all readable is read back by the reader constructor from what `getBytes` wrote, wherever it sits, and the reader ends right after it |
| BlockGrid.GridEncodes | shared/src/ritzow/sandbox/world/BlockGrid.java:39-42 | a grid whose blocks are all readable can be written |
| BlockGrid.HeaderFilled | shared/src/ritzow/sandbox/world/BlockGrid.java:43-46 | the three `putInteger` calls over the zero-padded cells produce the header |
| BlockGrid.BlockGrid.constructor | shared/src/ritzow/sandbox/world/BlockGrid.java:18-23 | the given dimensions and every cell empty |
| BlockGrid.BlockGrid.Compute | shared/src/ritzow/sandbox/world/BlockGrid.java:137-146 | a valid coordinate's index lies inside the array |
| BlockGrid.BlockGrid.Get | shared/src/ritzow/sandbox/world/BlockGrid.java:87-94 | the block at a valid coordinate; an invalid one is an IllegalArgumentException |
| BlockGrid.BlockGrid.IsBlock | shared/src/ritzow/sandbox/world/BlockGrid.java:217-219 | whether a valid coordinate holds a block; an invalid one is an IllegalArgumentException |
| BlockGrid.BlockGrid.Set | shared/src/ritzow/sandbox/world/BlockGrid.java:121-131 | stores the block and returns the one it replaced, every other cell unchanged; an invalid coordinate changes nothing |
| BlockGrid.BlockGrid.Place | shared/src/ritzow/sandbox/world/BlockGrid.java:190-197 | into an empty cell only, returning whether it placed; a null block is a NullPointerException |
| BlockGrid.BlockGrid.IsBlockAt | shared/src/ritzow/sandbox/world/BlockGrid.java:199-209 | whether some layer of the cell holds a block |
| BlockGrid.BlockGrid.IsBlockInLayers | shared/src/ritzow/sandbox/world/BlockGrid.java:229-240 | whether some layer from `first` to `last` of the cell holds a block; an invalid first layer, cell or last layer throws |
| BlockGrid.BlockGrid.GetTopBlockLayer | shared/src/ritzow/sandbox/world/BlockGrid.java:242-253 | the lowest layer holding a block, or INVALID_LAYER when none does |
| BlockGrid.BlockGrid.IsSolidBlockAdjacent | shared/src/ritzow/sandbox/world/BlockGrid.java:255-260 | true exactly when one of the four neighbouring cells inside the grid holds a block in that layer |
| BlockGrid.BlockGrid.Fill | shared/src/ritzow/sandbox/world/BlockGrid.java:148-158 | the outcome and array `FillRows` describe, with the row bound computed in int arithmetic |
| BlockGrid.BlockGrid.GetBytes | shared/src/ritzow/sandbox/world/BlockGrid.java:36-48 | the encoding of the grid's dimensions and cells |
| BlockGrid.BlockGrid.Read | shared/src/ritzow/sandbox/world/BlockGrid.java:25-34 | the error `Decoding` gives; for dimensions that multiply to the cells read, the grid `Decoding` describes with the reader moved past it; for any other dimensions IllegalArgumentException (see Weaker contracts) |
| BlockGrid.ReadInto | shared/src/ritzow/sandbox/world/BlockGrid.java:31-33 | the loop reads one object per array element, in order |
| BlockGrid.FillRange | shared/src/ritzow/sandbox/world/BlockGrid.java:156 | `Arrays.fill` stores the block in the range and nothing else |
| World.Selected | shared/src/ritzow/sandbox/world/World.java:94-97 | the accepted entities, in list order, each one from the list and accepted |
| World.IndexOf | shared/src/ritzow/sandbox/world/World.java:255 | the first position holding the entity, which `List.remove(Object)` removes |
| World.MaxId | shared/src/ritzow/sandbox/world/World.java:70-77 | the reader constructor's running maximum: at least 0, at least every ID, and one of the IDs unless it is 0 |
| World.NextId | shared/src/ritzow/sandbox/world/World.java:132-134 | no contract of its own: `++lastEntityID` in int arithmetic; `NextIdIsNew` and `NextIdWraps` state what it hands out |
| World.IdMap | shared/src/ritzow/sandbox/world/World.java:228-231 | no contract of its own: the map `addEntity` builds over a list, in order; `IdMapConsistent` proves it agrees with the list |
| World.RemoveAt | shared/src/ritzow/sandbox/world/World.java:255 | no contract of its own: the list without entry `i`; `RemoveAtEntries` proves it keeps every other entry in order |
| World.Objects | shared/src/ritzow/sandbox/world/World.java:94-96 | one object per entity, in list order, each the entity's serialized form |
| World.DistinctSnoc | shared/src/ritzow/sandbox/world/World.java:228-231 | appending keeps the IDs distinct exactly when the new ID is not yet used |
| World.AddConsistent | shared/src/ritzow/sandbox/world/World.java:228-231 | `addEntity` keeps the list and the map consistent exactly when the entity's ID is new |
| World.IdMapConsistent | shared/src/ritzow/sandbox/world/World.java:65-78 | the map the reader constructor builds agrees with its list exactly when the IDs read are distinct |
| World.RemoveAtEntries | shared/src/ritzow/sandbox/world/World.java:255 | removing entry `i` keeps every other entry, in order |
| World.RemoveConsistent | shared/src/ritzow/sandbox/world/World.java:253-258 | in a consistent world the mapped entity is in the list, and removing it from both keeps them consistent with the ID gone |
| World.KeepSelected | shared/src/ritzow/sandbox/world/World.java:159-169 | `removeIf` keeps exactly the entities the predicate refuses and removes exactly those it accepts, nothing lost or added |
| World.KeepIds | shared/src/ritzow/sandbox/world/World.java:159-169 | the kept entities have distinct IDs, the old IDs minus those removed |
| World.RemoveIfConsistent | shared/src/ritzow/sandbox/world/World.java:159-169 | `removeIf` keeps the list and the map consistent |
| World.NextIdIsNew | shared/src/ritzow/sandbox/world/World.java:132-134 | after loading, while the counter is below the int maximum, the next ID is larger than every entity's ID and so unused |
| World.NextIdWraps | shared/src/ritzow/sandbox/world/World.java:133 | at the int maximum the counter wraps to the smallest int |
| World.FilteredReadBack | shared/src/ritzow/sandbox/world/World.java:89-118 | what `getBytesFiltered` writes holds the accepted-entity count after the grid's bytes, then reads back the accepted entities in list order up to the end |
| World.LayoutReadBack | shared/src/ritzow/sandbox/world/World.java:101-117 | readable objects written after a count are read back after it |
| World.World.constructor | shared/src/ritzow/sandbox/world/World.java:59-63 | no entities, counter 0, no removal action, and a fresh empty grid of two layers of the given size |
| World.World.Read | shared/src/ritzow/sandbox/world/World.java:65-78 | a null grid or a null entity is a NullPointerException; running out of objects is a SerializationException, as `readObject` turns the reader's IndexOutOfBoundsException into one; otherwise the listed entities in order, the map built from them and the counter at their largest ID |
| World.World.NextEntityID | shared/src/ritzow/sandbox/world/World.java:132-134 | the counter incremented with 32-bit wrap-around and returned; nothing else changes |
| World.World.SetRemoveEntities | shared/src/ritzow/sandbox/world/World.java:155-157 | removal is enabled and nothing else changes |
| World.World.GetEntityFromIdOrNull | shared/src/ritzow/sandbox/world/World.java:194-196 | present exactly when the map has the ID; in a consistent world it is the listed entity with that ID |
| World.World.GetEntityFromID | shared/src/ritzow/sandbox/world/World.java:198-200 | a missing ID is a NullPointerException; otherwise the listed entity with that ID |
| World.World.Add | shared/src/ritzow/sandbox/world/World.java:237-240 | refused while entities update, null refused, otherwise appended to the list and mapped by its ID |
| World.World.RemoveById | shared/src/ritzow/sandbox/world/World.java:251-258 | the ID leaves the map; its entity leaves the list at its first occurrence and is returned; an unknown ID or an unlisted entity is an IllegalStateException |
| World.World.Remove | shared/src/ritzow/sandbox/world/World.java:246-249 | refused while entities update, otherwise `remove(id)` on the entity's ID |
| World.World.RemoveIf | shared/src/ritzow/sandbox/world/World.java:159-169 | the list keeps exactly the refused entities, the map loses exactly the removed IDs, and the removal action receives the removed entities in order |
| World.World.GetBytesFiltered | shared/src/ritzow/sandbox/world/World.java:89-118 | the grid's bytes, the accepted count, then each accepted entity serialized in list order; the first serialization failure is the result; the total length must fit in an int (see Weaker contracts) |
| World.SerializeFiltered | shared/src/ritzow/sandbox/world/World.java:93-99 | the stream serializes the accepted entities in list order or fails at the first that cannot be |
| World.WriteFiltered | shared/src/ritzow/sandbox/world/World.java:101-117 | the array holds the grid's bytes, the count, and the chunks one after another, for a total length that fits in an int |
| Sequencing.ReliableInOrder | server/src/ritzow/sandbox/server/network/Server.java:553-562 | over any sequence of RELIABLE arrivals (any order, repeats, gaps) the messages processed are exactly the consecutive IDs from the starting counter to the final counter, each once and in order |
| Sequencing.ReliableDelivery | server/src/ritzow/sandbox/server/network/Server.java:553-562 | no contract of its own: the expected ID is processed, an older one acknowledged again, a later one dropped; `ReliableInOrder` is what follows |
| Sequencing.ReliableNext | server/src/ritzow/sandbox/server/network/Server.java:556 | no contract of its own: the counter moves on by one, wrapped, only when the expected ID arrives |
| Sequencing.ReliableRun | server/src/ritzow/sandbox/server/network/Server.java:553-562 | no contract of its own: the IDs processed from a run of RELIABLE arrivals and the final counter; `ReliableInOrder` and `ReliableRunSnoc` state its properties |
| Sequencing.ReliableRunSnoc | server/src/ritzow/sandbox/server/network/Server.java:553-562 | one more arrival extends the run: its ID is processed exactly when it is the counter reached so far, and the counter moves on as `ReliableNext` says |
| Sequencing.UnreliableIncreasing | server/src/ritzow/sandbox/server/network/Server.java:564-569 | over any sequence of UNRELIABLE arrivals the processed IDs strictly increase, none is below the starting counter, the counter never goes down and ends one past the last processed ID |
| Sequencing.UnreliableAccepted | server/src/ritzow/sandbox/server/network/Server.java:565 | no contract of its own: an ID not below the counter is processed |
| Sequencing.UnreliableNext | server/src/ritzow/sandbox/server/network/Server.java:566 | no contract of its own: one past an accepted ID, wrapped; otherwise unchanged |
| Sequencing.UnreliableRun | server/src/ritzow/sandbox/server/network/Server.java:564-569 | no contract of its own: the IDs processed from a run of UNRELIABLE arrivals and the final counter; `UnreliableIncreasing` proves them increasing |
| Sequencing.UnreliableWraps | server/src/ritzow/sandbox/server/network/Server.java:565-566 | an UNRELIABLE packet with ID 2^31-1 is always accepted and wraps the counter to -2^31, after which every ID is accepted |
| Sequencing.Poll | server/src/ritzow/sandbox/server/network/Server.java:549 | `Queue.poll` drops exactly the head of a non-empty queue and leaves an empty queue empty |
| Sequencing.UnreliableHead | server/src/ritzow/sandbox/server/network/Server.java:589-606 | the packets the draining loop sends before it stops: all unreliable, and followed by a reliable one or the end of the queue |
| Sequencing.UnreliableSends | server/src/ritzow/sandbox/server/network/Server.java:603-605 | each drained packet goes out as an UNRELIABLE datagram carrying its data, in queue order |
| Sequencing.FrameRoundTrip | server/src/ritzow/sandbox/server/network/Server.java:575-576 | a framed datagram is at least `HEADER_SIZE` long, its first byte is the kind, the next four read back as the ID and the rest is the message, as `processPacket` reads it at 538-541 |
| Sequencing.Frame | server/src/ritzow/sandbox/server/network/Server.java:575-576 | no contract of its own: kind byte, four-byte ID, then the message; `FrameRoundTrip` proves the receiving side reads it back |
| Sequencing.SendUnreliableHead | client/src/ritzow/sandbox/client/network/UpdateClient.java:406-411 | the loop the client shares with `Server.sendQueued`: the queue loses its unreliable head, the unreliable ID advances by its length, and the datagrams are `Sequencing.UnreliableSends` of the removed packets |
| Server.CheckReceiveTimeout | server/src/ritzow/sandbox/server/network/Server.java:664-670 | only the status changes: a client silent for more than `TIMEOUT_DISCONNECT` nanoseconds is TIMED_OUT, any other is unchanged |
| Server.Dispatch | server/src/ritzow/sandbox/server/network/Server.java:128-156 | CONNECTED accepts exactly connect-request and world-built and turns invalid on anything else; IN_GAME is kicked exactly on an unknown type and self-disconnects on a disconnect; every other status ignores the message |
| Server.NewClient | server/src/ritzow/sandbox/server/network/Server.java:635-639 | no contract of its own: `new ClientState(address)`, CONNECTED with every counter zero and an empty queue |
| Server.IsNotDisconnectState | server/src/ritzow/sandbox/server/network/Server.java:657-662 | no contract of its own: every status but TIMED_OUT, KICKED, SELF_DISCONNECTED and REJECTED |
| Server.OnReceive | server/src/ritzow/sandbox/server/network/Server.java:116-126 | no contract of its own: the receive time recorded, then a message shorter than a short is BufferUnderflowException and any other is dispatched; `Arrive` states the outcome |
| Server.ArrivalOf | server/src/ritzow/sandbox/server/network/Server.java:537-573 | no contract of its own: `Arrive` on the sender's state, or a new one (`computeIfAbsent`); `Server.Server.ProcessPacket` states the effect |
| Server.Arrive | server/src/ritzow/sandbox/server/network/Server.java:543-570 | a matching RESPONSE resets the attempts, advances `sendReliableID` and polls the queue, any other leaves them; a RELIABLE message is acknowledged exactly when its ID is at most the counter and only the expected one is processed; an UNRELIABLE message is processed exactly when its ID is not below the counter; a processed message shorter than a short is a BufferUnderflowException |
| Server.Broadcasted | server/src/ritzow/sandbox/server/network/Server.java:492-498 | keys and everything but queues are kept; the packet is appended to exactly the queues of clients not disconnecting and selected by the predicate |
| Server.Attempt | server/src/ritzow/sandbox/server/network/Server.java:590-601 | with `resendIntervalElapsed` as written: a reliable head is sent on the first attempt (recording the start time); while attempts are at most `RESEND_COUNT` it is resent exactly when `ResendIntervalElapsed` holds, the start time kept; after that the client is TIMED_OUT and nothing is sent; at most one datagram, the head with `sendReliableID`, and the attempts stay within 0..RESEND_COUNT+1 |
| Server.AttemptWaitsTooLong | server/src/ritzow/sandbox/server/network/Server.java:595 | one attempt started at 0, two resend intervals later: nothing is resent and the client is unchanged, although the intended check is due |
| Server.Drained | server/src/ritzow/sandbox/server/network/Server.java:589-606 | the unreliable head of the queue is removed and `sendUnreliableID` advances by its length, nothing else changes |
| Server.Flushed | server/src/ritzow/sandbox/server/network/Server.java:586-608 | `sendQueued` as written: the unreliable head is sent with consecutive IDs and dequeued, then at most one reliable datagram as `Attempt` decides; the reliable ID, receive counters and address are untouched, and the status changes only to TIMED_OUT after `RESEND_COUNT` resends |
| Server.Addressed | server/src/ritzow/sandbox/server/network/Server.java:604 | every datagram is sent to the client's own address, in order |
| Server.Untouched | server/src/ritzow/sandbox/server/network/Server.java:492-498 | a broadcast made while handling another client leaves alone what `handleClientStatuses` later reads of this one |
| Server.SendUnreliableHead | server/src/ritzow/sandbox/server/network/Server.java:589-607 | the draining loop leaves the client as `Drained` says and sends `UnreliableSends` of the packets it removed |
| Server.SendReliableHead | server/src/ritzow/sandbox/server/network/Server.java:590-601 | the reliable branch of the loop, with `resendIntervalElapsed` as written, produces what `Attempt` specifies |
| Server.BuildConnectAcknowledgement | server/src/ritzow/sandbox/server/network/Server.java:456-463 | eleven bytes that read back as the acknowledgment type, the WORLD status, the world size and the player ID |
| Server.AckLayout | server/src/ritzow/sandbox/server/network/Server.java:456-463 | the concatenated layout reads back field by field at offsets 0, 2, 3 and 7 |
| Server.Server.constructor | server/src/ritzow/sandbox/server/network/Server.java:54-61 | a server with no clients and nothing sent, over the world `setCurrentWorld` (95-99) gives it |
| Server.Server.ProcessPacket | server/src/ritzow/sandbox/server/network/Server.java:537-573 | a datagram shorter than `HEADER_SIZE` changes nothing; otherwise the sender has a state (created if absent) updated as `Arrive` says, an acknowledgment is sent exactly when `Arrive` acknowledges, and the handler, if any, is recorded |
| Server.Server.Broadcast | server/src/ritzow/sandbox/server/network/Server.java:492-498 | the client map becomes `Broadcasted` of the old one; nothing is sent |
| Server.Server.HandleDisconnect | server/src/ritzow/sandbox/server/network/Server.java:225-238 | everyone not disconnecting is told; a player leaves the world exactly when the world can remove it, otherwise IllegalStateException; no client is added, removed or changed except in its queue |
| Server.Server.HandleClient | server/src/ritzow/sandbox/server/network/Server.java:187-223 | as written: timed-out and invalid clients are dropped at once, kicked, self-disconnected and rejected ones once their queue is empty, connected and in-game ones checked for a timeout; a kicked or self-disconnected client's disconnect is handled on every pass |
| Server.Server.HandleClientIntended | server/src/ritzow/sandbox/server/network/Server.java:187-223 | as `HandleClient`, with the disconnect handled only on the pass that drops the client |
| Server.Server.RepeatedDisconnect | server/src/ritzow/sandbox/server/network/Server.java:204-207 | a kicked client with queued messages and a player in the world: the first pass succeeds and the second fails with IllegalStateException |
| Server.Server.WaitingDisconnect | server/src/ritzow/sandbox/server/network/Server.java:204-207 | with the intended pass the same client stays unchanged and the world keeps its entities, on both passes |
| Server.Server.HandleClientStatuses | server/src/ritzow/sandbox/server/network/Server.java:187-223 | after a pass over every client, exactly the clients that should stay remain, with their statuses advanced; a failure is an IllegalStateException; nothing is sent |
| Server.Server.SendQueued | server/src/ritzow/sandbox/server/network/Server.java:586-608 | the client's state becomes that of `Flushed` (the resend check as written) and its datagrams are sent to its address; no other client changes |
| UpdateClient.RequiresCommunication | client/src/ritzow/sandbox/client/network/UpdateClient.java:42-54 | true for every status but DISCONNECTED |
| UpdateClient.AckStatus | client/src/ritzow/sandbox/client/network/UpdateClient.java:251-273 | a REJECTED code rejects; a WORLD code followed by a non-negative size connects; LOBBY and unknown codes are UnsupportedOperationException; a negative size is NegativeArraySizeException; missing bytes underflow the buffer |
| UpdateClient.AcknowledgmentConnects | client/src/ritzow/sandbox/client/network/UpdateClient.java:259-265 | the acknowledgment `buildConnectAcknowledgement` (Server.java:456-463) writes for a non-negative world size connects the client and announces that size |
| UpdateClient.UpdateClient.constructor | client/src/ritzow/sandbox/client/network/UpdateClient.java:103-110 | CONNECTING, every counter zero, no world state, and the connect request queued as the only reliable message |
| UpdateClient.UpdateClient.StartDisconnect | client/src/ritzow/sandbox/client/network/UpdateClient.java:169-176 | DISCONNECTING, with a reliable disconnect message appended to the queue whose action will mark the client disconnected; nothing else changes |
| UpdateClient.UpdateClient.Acknowledge | client/src/ritzow/sandbox/client/network/UpdateClient.java:431-441 | the attempts reset, `sendReliableID` advances, the head is polled, and its registered action, if any, makes the client DISCONNECTED and tells the listener |
| UpdateClient.UpdateClient.ProcessReceived | client/src/ritzow/sandbox/client/network/UpdateClient.java:425-463 | a datagram shorter than `HEADER_SIZE` changes nothing; RELIABLE and UNRELIABLE counters follow the same rules as the server's (`Sequencing.ReliableNext`, `UnreliableNext`); an acknowledgment is written exactly when a RELIABLE ID is at most the counter; exactly the processed messages reach `onReceive`; a matching RESPONSE acknowledges the head |
| UpdateClient.UpdateClient.Process | client/src/ritzow/sandbox/client/network/UpdateClient.java:465-467 | the message after the header, and only it, is handed to `onReceive` |
| UpdateClient.UpdateClient.OnReceive | client/src/ritzow/sandbox/client/network/UpdateClient.java:132-153 | a connect acknowledgment is always handled; while CONNECTING anything else is IllegalStateException; once connected an unknown type is IllegalArgumentException; world data is appended to what was received; a server disconnect disconnects; a message shorter than its type underflows |
| UpdateClient.UpdateClient.ProcessServerConnectAcknowledgement | client/src/ritzow/sandbox/client/network/UpdateClient.java:251-273 | succeeds exactly when `AckStatus` does: REJECTED rejects and tells the listener; WORLD starts a download of the announced size and connects; a failure changes nothing |
| UpdateClient.UpdateClient.StartDownload | client/src/ritzow/sandbox/client/network/UpdateClient.java:260-264 | a fresh buffer of the announced size, with all of it remaining and nothing received |
| UpdateClient.UpdateClient.ProcessReceiveWorldData | client/src/ritzow/sandbox/client/network/UpdateClient.java:346-354 | a chunk is appended at `length - remaining` and `remaining` drops by its size; the world is built exactly when nothing remains; no world state is a NullPointerException, a released buffer IllegalStateException, an oversized chunk IndexOutOfBoundsException, and a failure changes nothing |
| UpdateClient.UpdateClient.BuildWorld | client/src/ritzow/sandbox/client/network/UpdateClient.java:356-363 | the world comes from all the bytes received, which fill the buffer exactly; the buffer is released and a reliable world-built message is queued |
| UpdateClient.UpdateClient.ProcessServerDisconnect | client/src/ritzow/sandbox/client/network/UpdateClient.java:303-311 | DISCONNECTED in every case; the reason's length and bytes must be there (BufferUnderflowException, NegativeArraySizeException otherwise) and only then is the listener told |
| UpdateClient.UpdateClient.Receive | client/src/ritzow/sandbox/client/network/UpdateClient.java:385-390 | the datagrams are processed in turn until one fails: the counters, acknowledgments sent and messages handed on are `ReceiveAll` of the datagrams processed; it stops at datagram `count` exactly when that one fails, after handing on its message |
| UpdateClient.ReceiveOne | client/src/ritzow/sandbox/client/network/UpdateClient.java:425-463 | one datagram's effect: a short one changes nothing; an acknowledgment is written exactly for a RELIABLE one not ahead of the counter, and the message is handed on exactly when it is processed |
| UpdateClient.ReceiveAll | client/src/ritzow/sandbox/client/network/UpdateClient.java:385-390 | the effects of a run of datagrams, in order: at most one acknowledgment and one message each, every acknowledgment a RESPONSE |
| UpdateClient.ReceiveReliable | client/src/ritzow/sandbox/client/network/UpdateClient.java:443-451 | after a run of datagrams the reliable receive counter is the one `Sequencing.ReliableRun` computes from the RELIABLE IDs among them |
| UpdateClient.UpdateClient.Send | client/src/ritzow/sandbox/client/network/UpdateClient.java:392-413 | the unreliable head goes out with consecutive IDs and leaves the queue; a reliable head is then sent on the first attempt, resent once the interval has elapsed, and after `RESEND_COUNT` attempts is a TimeoutException; the attempts count the reliable sends |
| UpdateClient.UpdateClient.SendReliableHead | client/src/ritzow/sandbox/client/network/UpdateClient.java:394-405 | the reliable head is sent when there were no attempts (starting the clock) or when the interval has elapsed and fewer than `RESEND_COUNT` attempts were made; TimeoutException exactly when the interval has elapsed after `RESEND_COUNT` attempts |
| CommandParser.Lower | server/src/ritzow/sandbox/server/CommandParser.java:36 | `toLowerCase` keeps the length and lowers each letter A to Z in place |
| CommandParser.LowerIdempotent | server/src/ritzow/sandbox/server/CommandParser.java:36 | lowering a lowered name changes nothing, so a stored key looks itself up |
| CommandParser.LowerIgnoresCase | server/src/ritzow/sandbox/server/CommandParser.java:36-37 | names differing only in letter case get the same key, so registering the second is refused |
| CommandParser.TrimStartSpec | server/src/ritzow/sandbox/server/CommandParser.java:51 | the leading-whitespace trim removes exactly the whitespace prefix and keeps the rest as a suffix |
| CommandParser.TrimEndSpec | server/src/ritzow/sandbox/server/CommandParser.java:51 | the trailing-whitespace trim removes exactly the whitespace suffix and keeps the rest as a prefix |
| CommandParser.StripSpec | server/src/ritzow/sandbox/server/CommandParser.java:51 | `strip` keeps a slice of the line with only whitespace before and after it, and the slice neither starts nor ends with whitespace |
| CommandParser.TokenEndSpec | server/src/ritzow/sandbox/server/CommandParser.java:47-48 | the scanner's token runs up to the first whitespace character or the end of the line |
| CommandParser.NextNonBlank | server/src/ritzow/sandbox/server/CommandParser.java:47 | `hasNext` skips blank lines: every line skipped is whitespace only, and the one found is not |
| CommandParser.Step | server/src/ritzow/sandbox/server/CommandParser.java:47-52 | each pass of the loop consumes at least one line and never reads past the last |
| CommandParser.Parse | server/src/ritzow/sandbox/server/CommandParser.java:45-53 | no contract of its own: the invocations `run` queues from line `i` on and how it ends; `ParseStopsAtTerminator` states them |
| CommandParser.ParseStopsAtTerminator | server/src/ritzow/sandbox/server/CommandParser.java:45-53 | at most one invocation per line; none but the last terminates the parser; the run ends normally exactly when the last one does, and otherwise with NoSuchElementException |
| CommandParser.ScanFindsCommand | server/src/ritzow/sandbox/server/CommandParser.java:47-51 | a line starting with a word and a space selects the command registered under the lowered word, or `UNKNOWN_COMMAND`, with the rest of the line stripped as its argument |
| CommandParser.StripLeading | server/src/ritzow/sandbox/server/CommandParser.java:51 | the space after the command name does not reach the argument |
| CommandParser.CommandParser.constructor | server/src/ritzow/sandbox/server/CommandParser.java:30-33 | no commands and nothing queued |
| CommandParser.CommandParser.Register | server/src/ritzow/sandbox/server/CommandParser.java:35-39 | the entry is stored under the lowered name; a taken name is IllegalArgumentException and leaves the registry unchanged |
| CommandParser.CommandParser.Run | server/src/ritzow/sandbox/server/CommandParser.java:41-55 | the queue gains exactly the invocations `Parse` describes, in order, and the outcome is `Parse`'s |
| CommandParser.CommandParser.Update | server/src/ritzow/sandbox/server/CommandParser.java:57-61 | every queued invocation runs, first queued first, and the queue ends empty |
| Controls.CompareOverflows | client/src/ritzow/sandbox/client/input/ControlsContext.java:52-58 | as written, two keyboard codes 2^31-1 and -1 each compare below the other |
| Controls.CompareButtons | client/src/ritzow/sandbox/client/input/ControlsContext.java:52-58 | no contract of its own: the type difference, or the code difference, in int arithmetic; `CompareOverflows` shows it is not an order |
| Controls.Compare | client/src/ritzow/sandbox/client/input/ControlsContext.java:52-58 | no contract of its own: the same differences without overflow; `CompareOrders` proves it orders buttons by (type, code) |
| Controls.CompareOrders | client/src/ritzow/sandbox/client/input/ControlsContext.java:52-58 | the intended comparison is negative, zero or positive exactly as the first button ranks below, equal to or above the second by type then code, zero only for equal buttons, and agrees with the code as written whenever the codes' difference fits in an int |
| Controls.Insert | client/src/ritzow/sandbox/client/input/ControlsContext.java:46 | inserting into a sorted table keeps it sorted and adds exactly the one button |
| Controls.Sort | client/src/ritzow/sandbox/client/input/ControlsContext.java:46 | `Arrays.sort` with the intended comparison: sorted by type then code, and a permutation of the buttons given |
| Controls.Decode | client/src/ritzow/sandbox/client/input/ControlsContext.java:114-123 | the four two-bit codes decode; any other byte is IllegalStateException |
| Controls.StateBits | client/src/ritzow/sandbox/client/input/ControlsContext.java:24-28 | bit 0 is set exactly in the pressed states, bit 1 exactly in the new ones, and clearing bit 1 turns a new state into the previous one of the same kind |
| Controls.ControlsContext.constructor | client/src/ritzow/sandbox/client/input/ControlsContext.java:43-50 | the table holds the buttons sorted by type then code, all PREVIOUSLY_RELEASED |
| Controls.ControlsContext.IndexOf | client/src/ritzow/sandbox/client/input/ControlsContext.java:60-79 | a non-negative result indexes a button with that type and code; a negative one means no such button, and `-(p+1)` gives the insertion point `p`: every button before it ranks lower, every one from it on ranks higher |
| Controls.ControlsContext.Press | client/src/ritzow/sandbox/client/input/ControlsContext.java:81-88 | the registered button's state becomes NEWLY_PRESSED and no other state changes; an unregistered key changes nothing |
| Controls.ControlsContext.Release | client/src/ritzow/sandbox/client/input/ControlsContext.java:91-98 | the registered button's state becomes NEWLY_RELEASED and no other state changes; an unregistered key changes nothing |
| Controls.ControlsContext.Repeat | client/src/ritzow/sandbox/client/input/ControlsContext.java:100-106 | no state changes; the repeat hook runs exactly for a registered button |
| Controls.ControlsContext.NextFrame | client/src/ritzow/sandbox/client/input/ControlsContext.java:108-112 | every state keeps bit 0 and loses bit 1 |
| Controls.ControlsContext.OnCharacterTyped | client/src/ritzow/sandbox/client/input/ControlsContext.java:20-22 | the code point is appended to the characters collected |
| Controls.ControlsContext.GetState | client/src/ritzow/sandbox/client/input/ControlsContext.java:114-123 | a registered button's decoded state, always one of the four; a button not in the table is ArrayIndexOutOfBoundsException |
| Controls.ControlsContext.IsPressed | client/src/ritzow/sandbox/client/input/ControlsContext.java:125-128 | true exactly when the button's state is a pressed one; a button not in the table is ArrayIndexOutOfBoundsException |
| Controls.ControlsContext.IsNewlyPressed | client/src/ritzow/sandbox/client/input/ControlsContext.java:130-133 | true exactly when the button's state is NEWLY_PRESSED; a button not in the table is ArrayIndexOutOfBoundsException |
| Controls.ControlsContext.IsNewlyReleased | client/src/ritzow/sandbox/client/input/ControlsContext.java:135-138 | true exactly when the button's state is NEWLY_RELEASED; a button not in the table is ArrayIndexOutOfBoundsException |
| EditableText.ModelOf | client/src/ritzow/sandbox/client/ui/element/EditableText.java:93-100 | the font's model for a code point it knows; IllegalArgumentException exactly for one it does not |
| EditableText.KnownPrefix | client/src/ritzow/sandbox/client/ui/element/EditableText.java:50-52 | the code points before the first one without a model all have one, and the next one, if any, has none |
| EditableText.Reversed | client/src/ritzow/sandbox/client/ui/element/EditableText.java:70-72 | reversal keeps the length |
| EditableText.EntriesRoundTrip | client/src/ritzow/sandbox/client/ui/element/EditableText.java:89-91 | the entries made for known code points carry the font's models, and their characters are those code points |
| EditableText.DrawnByCharacters | client/src/ritzow/sandbox/client/ui/element/EditableText.java:89-91 | two texts drawn by one font are equal exactly when their characters are |
| EditableText.ReversedAt | client/src/ritzow/sandbox/client/ui/element/EditableText.java:70-72 | element `k` of a reversed sequence is the one `k` places from the end |
| EditableText.ReversedCharacters | client/src/ritzow/sandbox/client/ui/element/EditableText.java:70-72 | reversing entries reverses their characters |
| EditableText.CharactersJoin | client/src/ritzow/sandbox/client/ui/element/EditableText.java:102-105 | the characters of joined entries are the joined characters |
| EditableText.InsertReverses | client/src/ritzow/sandbox/client/ui/element/EditableText.java:70-72 | inserting a string's code points one by one at the same index leaves the text reading: the old text up to the index, the string back to front, then the rest |
| EditableText.CharactersSplit | client/src/ritzow/sandbox/client/ui/element/EditableText.java:102-105 | the characters before and after an index are those of the entries before and after it |
| EditableText.InsertStep | client/src/ritzow/sandbox/client/ui/element/EditableText.java:71 | one more insertion at the index puts the next code point in front of those inserted before it |
| EditableText.ReversedSnoc | client/src/ritzow/sandbox/client/ui/element/EditableText.java:71 | reversing a sequence with one more element at the end puts that element first |
| EditableText.EditableText.constructor | client/src/ritzow/sandbox/client/ui/element/EditableText.java:17-22 | an empty text over the given font |
| EditableText.EditableText.Length | client/src/ritzow/sandbox/client/ui/element/EditableText.java:42-44 | the number of code points in the text |
| EditableText.EditableText.HasContent | client/src/ritzow/sandbox/client/ui/element/EditableText.java:38-40 | true exactly when the length is positive |
| EditableText.EditableText.Content | client/src/ritzow/sandbox/client/ui/element/EditableText.java:102-105 | the code points of the entries, in order; IllegalArgumentException exactly when some character is not a code point |
| EditableText.EditableText.Append | client/src/ritzow/sandbox/client/ui/element/EditableText.java:46-48 | a known character adds one entry, carrying its model, at the end; an unknown one is IllegalArgumentException and changes nothing |
| EditableText.EditableText.AppendText | client/src/ritzow/sandbox/client/ui/element/EditableText.java:50-52 | the entries for the code points are added in order up to the first unknown one, which is IllegalArgumentException |
| EditableText.EditableText.Delete | client/src/ritzow/sandbox/client/ui/element/EditableText.java:54-56 | exactly the last entry goes; an empty text is IndexOutOfBoundsException and stays empty |
| EditableText.EditableText.DeleteAt | client/src/ritzow/sandbox/client/ui/element/EditableText.java:58-60 | exactly entry `index` goes and the rest keep their order; an index outside the text is IndexOutOfBoundsException and changes nothing |
| EditableText.EditableText.Insert | client/src/ritzow/sandbox/client/ui/element/EditableText.java:62-64 | the entry goes in at `index` with the rest shifted; an unknown character is IllegalArgumentException (checked first), an index outside 0..length IndexOutOfBoundsException, and neither changes anything |
| EditableText.EditableText.DeleteRange | client/src/ritzow/sandbox/client/ui/element/EditableText.java:66-68 | entries `index` up to `index + count` (int arithmetic) go; a negative start or an end past the text is IndexOutOfBoundsException, an end before the start IllegalArgumentException, and neither changes anything |
| EditableText.EditableText.InsertText | client/src/ritzow/sandbox/client/ui/element/EditableText.java:70-72 | the string's known prefix ends up reversed at `index`; an empty string changes nothing; an unknown code point is IllegalArgumentException after the ones before it; a bad index is IndexOutOfBoundsException before anything changes |
| EditableText.EditableText.SetContent | client/src/ritzow/sandbox/client/ui/element/EditableText.java:83-87 | the text becomes the entries for the code points up to the first unknown one; when all are known, `content()` gives back exactly the text set |
| Wave.LeIntOf | client/src/ritzow/sandbox/client/audio/WAVEDecoderNIO.java:23 | in a little-endian buffer, an int reads back from the four bytes that store it low byte first |
| Wave.LeShortOf | client/src/ritzow/sandbox/client/audio/WAVEDecoderNIO.java:23 | in a little-endian buffer, a short reads back from the two bytes that store it low byte first |
| Wave.Unsigned | client/src/ritzow/sandbox/client/audio/WAVEDecoderNIO.java:95-96 | a stored chunk size read as the unsigned 32-bit number RIFF means: in 0..2^32-1 and equal to the signed reading modulo 2^32 |
| Wave.SkipWraps | client/src/ritzow/sandbox/client/audio/WAVEDecoderNIO.java:82 | `position() + n` in int arithmetic lands in 0..limit exactly when the true sum does, and then equals it |
| Wave.ByteBuffer.constructor | client/src/ritzow/sandbox/client/audio/WAVEDecoderNIO.java:23-25 | a buffer holding the file, read from position 0 up to its length |
| Wave.ByteBuffer.Get | client/src/ritzow/sandbox/client/audio/WAVEDecoderNIO.java:88-89 | `get(byte[n])` returns the next `n` bytes and advances by `n`, or underflows and reads nothing |
| Wave.ByteBuffer.GetInt | client/src/ritzow/sandbox/client/audio/WAVEDecoderNIO.java:95 | the next four bytes read little-endian, advancing by four, or an underflow |
| Wave.ByteBuffer.GetShort | client/src/ritzow/sandbox/client/audio/WAVEDecoderNIO.java:106 | the next two bytes read little-endian, advancing by two, or an underflow |
| Wave.ByteBuffer.SetPosition | client/src/ritzow/sandbox/client/audio/WAVEDecoderNIO.java:82 | a position in 0..limit is taken; any other is IllegalArgumentException and changes nothing |
| Wave.ByteBuffer.SetLimit | client/src/ritzow/sandbox/client/audio/WAVEDecoderNIO.java:121-123 | a limit in 0..capacity is taken, pulling the position back to it; any other is IllegalArgumentException and changes nothing |
| Wave.ByteBuffer.Drain | client/src/ritzow/sandbox/client/audio/WAVEDecoderNIO.java:122 | `put(in)` takes every byte from the position to the limit and leaves none remaining |
| Wave.WAVEDecoder.constructor | client/src/ritzow/sandbox/client/audio/WAVEDecoderNIO.java:13-19 | every field zero and no data |
| Wave.WAVEDecoder.IsSigned | client/src/ritzow/sandbox/client/audio/WAVEDecoderNIO.java:53-56 | samples are signed exactly when they are 16 bits wide |
| Wave.WAVEDecoder.GetData | client/src/ritzow/sandbox/client/audio/WAVEDecoderNIO.java:68-77 | the samples once decoded; before that a RuntimeException |
| Wave.Header | client/src/ritzow/sandbox/client/audio/WAVEDecoderNIO.java:79-85 | a successful header check leaves the position after it, within the limit |
| Wave.HeaderAccepts | client/src/ritzow/sandbox/client/audio/WAVEDecoderNIO.java:79-85 | the header is accepted exactly when twelve bytes remain, the first four "RIFF" and the last four "WAVE", and reading continues right after them |
| Wave.FindChunkLoops | client/src/ritzow/sandbox/client/audio/WAVEDecoderNIO.java:93-101 | as written, a chunk of another kind whose size field reads -8 sends the search back to where it started, so it ends in StackOverflowError whatever the stack depth |
| Wave.FindChunkSpec | client/src/ritzow/sandbox/client/audio/WAVEDecoderNIO.java:93-101 | with the size read unsigned, a chunk found lies within the buffer, its identifier is the one sought, and the search moves forward only |
| Wave.FindChunkSpecStops | client/src/ritzow/sandbox/client/audio/WAVEDecoderNIO.java:93-101 | where the code as written loops, the unsigned size runs past the limit and the search ends with IllegalArgumentException |
| Wave.FormatSpec | client/src/ritzow/sandbox/client/audio/WAVEDecoderNIO.java:103-115 | a format read leaves the position within the limit |
| Wave.Fields | client/src/ritzow/sandbox/client/audio/WAVEDecoderNIO.java:110-114 | the five fields take exactly fourteen bytes |
| Wave.FormatAccepts | client/src/ritzow/sandbox/client/audio/WAVEDecoderNIO.java:103-108 | the format is read exactly when twenty bytes remain and the format code is 1 (PCM), and reading continues twenty bytes on |
| Wave.FormatBytes | client/src/ritzow/sandbox/client/audio/WAVEDecoderNIO.java:110-114 | a PCM format body is sixteen bytes |
| Wave.FormatFields | client/src/ritzow/sandbox/client/audio/WAVEDecoderNIO.java:106-114 | a stored format body reads back as the PCM code, channels, sample rate, byte rate, block align and bits per sample, in that order |
| Wave.FormatRoundTrip | client/src/ritzow/sandbox/client/audio/WAVEDecoderNIO.java:103-115 | wherever a PCM format body follows the skipped sub-chunk size, `readFormat` reads back exactly that format |
| Wave.DataSpec | client/src/ritzow/sandbox/client/audio/WAVEDecoderNIO.java:117-124 | the samples read are exactly as many bytes as follow the size field, all within the capacity |
| Wave.DataRoundTrip | client/src/ritzow/sandbox/client/audio/WAVEDecoderNIO.java:117-124 | wherever a size is followed by that many bytes, `readData` copies exactly those bytes |
| Wave.WaveFile | client/src/ritzow/sandbox/client/audio/WAVEDecoderNIO.java:21-34 | a canonical PCM file is the 44-byte header and then the samples |
| Wave.WaveFileLayout | client/src/ritzow/sandbox/client/audio/WAVEDecoderNIO.java:79-124 | where each identifier, size and format field of a canonical file lies |
| Wave.DecodeWaveFile | client/src/ritzow/sandbox/client/audio/WAVEDecoderNIO.java:21-34 | decoding a canonical PCM WAVE file, as written (whatever the stack depth) and as intended, gives back its format and its samples |
| Wave.DecodeLoops | client/src/ritzow/sandbox/client/audio/WAVEDecoderNIO.java:28 | a file whose first chunk is not "fmt " and whose size field reads -8: decoding as written overflows the stack, the intended decoding refuses it with IllegalArgumentException |
| Wave.DecodeSpec | client/src/ritzow/sandbox/client/audio/WAVEDecoderNIO.java:21-34 | no contract of its own: `decode` as written, calling `FindChunkAsWritten`; `DecodeWaveFile` proves it gives back a canonical file's format and samples, `DecodeLoops` that it overflows on a -8 size |
| Wave.DecodeSpecIntended | client/src/ritzow/sandbox/client/audio/WAVEDecoderNIO.java:21-34 | no contract of its own: `decode` with the unsigned chunk search; `DecodeWaveFile` and `DecodeLoops` state what it gives |
| Wave.FindChunkAsWritten | client/src/ritzow/sandbox/client/audio/WAVEDecoderNIO.java:93-101 | a chunk found lies within the limit and its four-byte identifier, just before the result, is the one sought |
| Wave.ReadString | client/src/ritzow/sandbox/client/audio/WAVEDecoderNIO.java:87-91 | the next four bytes, advancing by four, or BufferUnderflowException |
| Wave.CheckHeader | client/src/ritzow/sandbox/client/audio/WAVEDecoderNIO.java:79-85 | succeeds or fails as `Header` says, and on success leaves the position where `Header` does |
| Wave.FindChunk | client/src/ritzow/sandbox/client/audio/WAVEDecoderNIO.java:93-101 | as written, with the size read signed and the stack depth bounded: succeeds or fails as `FindChunkAsWritten` says and leaves the position after the identifier found |
| Wave.FindChunkIntended | client/src/ritzow/sandbox/client/audio/WAVEDecoderNIO.java:93-101 | with the size read unsigned, succeeds or fails as `FindChunkSpec` says and leaves the position after the identifier found |
| Wave.ReadFormat | client/src/ritzow/sandbox/client/audio/WAVEDecoderNIO.java:103-115 | succeeds or fails as `FormatSpec` says; on success the decoder holds the format read, its `format` field stays 0 and its data is untouched |
| Wave.ReadFields | client/src/ritzow/sandbox/client/audio/WAVEDecoderNIO.java:110-114 | succeeds or fails as `Fields` says and stores the five fields into the decoder |
| Wave.ReadData | client/src/ritzow/sandbox/client/audio/WAVEDecoderNIO.java:117-124 | succeeds or fails as `DataSpec` says; on success the decoder's data is the samples and the limit is back at the capacity |
| Wave.Decode | client/src/ritzow/sandbox/client/audio/WAVEDecoderNIO.java:21-34 | as written: a decoder holding the format and samples of `DecodeSpec`, with `format` 0, or the exception `DecodeSpec` gives |

## Left out

These are not modelled:

- **Socket I/O, threads and the clock.** Datagram channels, receive loops, `System.nanoTime` and the checks that a channel is open are left out. Datagrams are values, sends go to a log, and the time is a parameter.
- **Compression.** `Bytes.compress`/`decompress` and `ByteUtil.compress`/`decompress` wrap `java.util.zip`.
- **Floating point.**
  - The `putFloat`/`getFloat`/`putDouble` accessors.
  - `World.update` and the entity physics.
  - `Server.placePlayer`, which computes a spawn position.
- **`ByteBufferDataReader`.** Only the array reader is modelled.
- **`SerializerReaderWriter.readObjects`.** The source leaves it unimplemented. `Serializer.ReadAll` states the sequence reading that its callers perform object by object.
- **`Block.onPlace` and the other block and entity behaviours.** A block or entity is its class name, its payload and, for entities, its ID.
- **`Inventory`'s reader constructor and `getBytes`.** They are serialization glue around `Serializer`, which is modelled.
- **Server message handlers.** The handlers for the connect request, block break and place, bomb throw and player state are recorded in `handled` and not run.
- **Other server operations.**
  - `kickClient` and `disconnectReason` text.
  - `sendEntityUpdates` and the printing in `broadcastAndPrint`.
  - Pings.
  - `buildAcknowledgementPackets`, which compresses the world.
  - `Server.update` is modelled only through its parts: `ProcessPacket`, `HandleClientStatuses` and `SendQueued`.
- **Undefined protocol constants.** `UpdateClient` and `Server` dispatch on `Protocol.TYPE_SERVER_PLAYER_ID`, `TYPE_SERVER_PING` and `TYPE_SERVER_PLAYER_ACTION`, which `Protocol.java` does not define. Messages of those types are treated as unknown types.
- **`Utility.sendIntervalElapsed`.** `UpdateClient.update` calls it, but it does not exist in `Utility.java`. The resend decision is therefore the parameter `elapsed` of `UpdateClient.UpdateClient.Send`.
- **UpdateClient extras.**
  - The entity, block and console message handlers do nothing here, because world entities are not modelled on the client.
  - `sendBombThrow`, `sendBlockBreak`, `sendPlayerAction`, `getWorld` and `getPlayer` are left out.
  - `update` is split into `Receive` and `Send`.
  - `messageSentActions` is modelled as an action attached to each queued packet.
- **CommandParser.**
  - `Scanner` over `System.in` is a list of lines.
  - Lower-casing applies to ASCII letters only.
  - Blanks are the ASCII whitespace characters that `Character.isWhitespace` accepts.
  - The "Available Commands" listing is not printed.
  - Running an action is recorded in `ran`.
- **ControlsContext.**
  - `Arrays.sort` also reorders the caller's array; here the caller's sequence is a value.
  - The `Button` record's other methods, the `onControl*` hooks and the window callbacks are left out.
- **EditableText.**
  - The `Font` class is not part of this model; a map from code points to models stands in for it.
  - Strings are sequences of code points, so UTF-16 encoding is not modelled.
  - `render`, `width` and `shape` are left out.
- **WAVEDecoderNIO.**
  - File I/O is left out: the file's bytes are a parameter, read in full at once, and files over 2 GiB are not modelled.
  - The RIFF pad byte after an odd-sized chunk is not skipped, and neither does the source skip it.
  - The JVM call stack is a `depth` parameter: a `findChunk` call with no room left is `StackOverflowError`. The real stack size is not modelled.
  - `getData` hands out the decoder's own buffer; here it is a copy of its contents.
  - The accessors other than `isSigned` and `getData` are plain field reads. `format()` always returns 0, because `readFormat` reads the format into a local variable that shadows the field. `Wave.ReadFormat` keeps that field unchanged.

Weaker contracts and preconditions:

- Bytes.GetInteger: an index outside the array is a precondition here, not an `ArrayIndexOutOfBoundsException`. The same holds for `GetShort`, `GetUnsignedByte`, `GetBoolean`, `GetStringLength`, `GetLong`, the `Put*` methods and `PutBytesWithLength`.
- DataReader.ByteArrayDataReader.ReadByte: `index + 1` is not wrapped. At index `Integer.MAX_VALUE` Java's `index++` gives `Integer.MIN_VALUE`, which the model does not. Reaching that index takes a wrapping `skip` or about 2^31 failed reads. The same holds for the reads built on it (`ReadInteger`, `ReadShort`, `ReadLong`, `ReadBoolean`, `ReadCompactBooleans`) and for `ReadBytes`'s `index + count`.
- Bytes.ConcatenateInto: a destination too short for the data is a precondition, not an `ArrayIndexOutOfBoundsException`. The same holds for `ByteUtil.ConcatenateInto` and both `ConcatenateSized`.
- Bytes.ConcatenateInto: with non-negative offset and header size, every array must be at least `headerSize` long. Java's `arraycopy` throws `IndexOutOfBoundsException` on a shorter one, after copying the arrays before it; that partial write is not modelled.
- Bytes.ConcatenateAt: the total length and `offset + length` are summed without wrapping. Java adds them in int arithmetic, so arrays totalling more than `Integer.MAX_VALUE` bytes would wrap to a wrong or negative size; that case is not modelled.
- Bytes.Concatenate: the same unwrapped total as `Bytes.ConcatenateAt`.
- Bytes.SerializeCollection: the byte count `bytes` and `4 + bytes` are summed without wrapping, as in `Bytes.ConcatenateAt`.
- ByteUtil.ConcatenateAt: the same unwrapped sums as `Bytes.ConcatenateAt`.
- ByteUtil.Concatenate: the same unwrapped sums as `Bytes.ConcatenateAt`.
- ByteUtil.SerializeCollection: the same unwrapped byte count as `Bytes.SerializeCollection`.
- World.World.GetBytesFiltered: requires the grid's bytes, the count and the entity chunks to total at most `Integer.MAX_VALUE`. Java sums them in int arithmetic and would allocate a wrapped size.
- World.WriteFiltered: the same bound on the total length as `World.World.GetBytesFiltered`.
- Bytes.SplitIntended: requires non-negative `padding` and `extraArrays`, as does `Bytes.Split`. Java throws `NegativeArraySizeException` or `ArrayIndexOutOfBoundsException` for negative ones; those paths are not modelled.
- BlockGrid.BlockGrid.Read: when the dimensions read do not multiply to the number of cells (a negative dimension, or a product that wraps), Java builds a grid with those fields anyway. The model reads the same cells and then refuses with `IllegalArgumentException`, because the class invariant cannot hold such a grid. `BlockGrid.Decoding` keeps the dimensions as read.
- Bytes.SerializeCollection: at most `Integer.MAX_VALUE` elements, the largest a Java array can hold. The same holds for `ByteUtil.SerializeCollection`, `Protocol.BuildConsoleMessage` and `Serializer.SerializerReaderWriter.Serialize`, whose frames must fit in a Java array.
- Bytes.Split: requires a positive `length`, where Java throws `ArithmeticException` for zero. It also requires non-negative `padding` and `extraArrays`. The same holds for `Bytes.SplitIntended`.
- BlockGrid.BlockGrid.constructor: requires non-negative dimensions whose product fits in an int. Java would throw `NegativeArraySizeException` or allocate a wrapped size.
- World.World.constructor: the same restriction for the world's block grid.
- Inventory.Inventory.constructor: requires a non-negative capacity, where Java throws `NegativeArraySizeException`.
- UtilityWorld.UpdateWorld: requires a positive `maxTimestep`. With a zero step the source's loop never ends. With a negative step `timeRemaining` grows at every pass until the long wraps, so the loop ends only after a huge number of updates; with `Long.MIN_VALUE` it ends after one pass. None of these runs is modelled.
- Controls.ControlsContext.IndexOf: searches with the overflow-free comparison `Controls.Compare` rather than the subtraction the source uses (see Findings). The same holds for `Controls.Sort` in the constructor.
- Server.Server.HandleClientStatuses: visits the clients in a given order, standing in for `HashMap`'s iteration order.

## Findings

| source | as written | input that shows it | evidently intended | confidence | as-written member | corrected member |
|---|---|---|---|---|---|---|
| shared/src/ritzow/sandbox/data/ByteUtil.java:62-73 | `concatenate(offset, arrays)` passes `offset + sum` as `totalBytes`, and the array is `offset + totalBytes` long, so it has `2·offset + sum` bytes | offset 4, one array `[1]`: 9 bytes instead of 5 | an array of `offset + sum` bytes, the arrays after `offset` (as `Bytes.concatenate` does) | high, not executed | ByteUtil.ConcatenateAt, ByteUtil.ConcatenateAtPadsTwice | Bytes.ConcatenateAt |
| shared/src/ritzow/sandbox/data/Bytes.java:26-38 | `split` loops `i` from `extraArrays` to `arraycount` inclusive, which is right only when `extraArrays` is 1 | source `[7]`, length 1, padding 0, extraArrays 2: `[null, null, null]`, so the data is lost; extraArrays 0 always throws `ArrayIndexOutOfBoundsException` | slots `extraArrays .. extraArrays + arraycount − 1` filled with the pieces | high, not executed | Bytes.Split, Bytes.SplitSlots, Bytes.SplitTwoExtraDropsData | Bytes.SplitIntended, Bytes.IntendedSplitCovers |
| shared/src/ritzow/sandbox/data/ByteArrayDataReader.java:85-89 | `readBytes(dest, offset)` accepts only `dest.length < remaining` and never advances the index | 4 unread bytes at index 0, `dest` of length 4, offset 0: `IndexOutOfBoundsException` | accept any `dest` the remaining bytes can fill, then move the index past what was read | medium, not executed | DataReader.ByteArrayDataReader.ReadBytesInto, DataReader.ReadBytesIntoRefusesExactFit | DataReader.ByteArrayDataReader.ReadBytesIntoIntended |
| shared/src/ritzow/sandbox/util/Utility.java:62-64 | `resendIntervalElapsed` applies `millisToNanos` to `RESEND_INTERVAL`, which is already in nanoseconds | start 0, attempts 1, now 200,000,000 ns (two resend intervals) and now one day later: neither counts as elapsed | resend once `RESEND_INTERVAL · attempts` nanoseconds have passed | high, not executed | UtilityWorld.ResendIntervalElapsed, UtilityWorld.ResendWaitsTooLong, Server.Attempt, Server.AttemptWaitsTooLong | UtilityWorld.ResendIntervalElapsedIntended, UtilityWorld.ResendSchedule |
| server/src/ritzow/sandbox/server/network/Server.java:204-207 | a KICKED or SELF_DISCONNECTED client whose queue is not empty stays in the map, and `handleDisconnect` runs on it on every pass | a kicked client in the world with one queued packet, two passes: the second `world.remove` of its player throws `IllegalStateException` | disconnect the client once, when its queue has drained | high, not executed | Server.Server.HandleClient, Server.Server.RepeatedDisconnect | Server.Server.HandleClientIntended, Server.Server.WaitingDisconnect, Server.Server.HandleClientStatuses |
| client/src/ritzow/sandbox/client/input/ControlsContext.java:52-58 | `compareButtons` returns `a.code() - b.code()`, which overflows | `Button(1, 2147483647)` and `Button(1, -1)`: each compares below the other, so sorting and binary search are unsound | an ordering by (type, code) that is antisymmetric for every code | high, not executed | Controls.CompareButtons, Controls.CompareOverflows | Controls.Compare, Controls.CompareOrders |
| client/src/ritzow/sandbox/client/audio/WAVEDecoderNIO.java:93-101 | `findChunk` moves by the chunk size it reads, and a size of −8 moves back to the same chunk, so it recurses until `StackOverflowError` | "RIFF", any size, "WAVE", "LIST", size bytes `F8 FF FF FF`, then at least one more byte | read the size as the unsigned 32-bit number RIFF stores, so every skip moves forward and a size past the end of the buffer is refused | high, not executed | Wave.FindChunkAsWritten, Wave.FindChunkLoops, Wave.FindChunk, Wave.DecodeSpec, Wave.Decode, Wave.DecodeLoops | Wave.FindChunkSpec, Wave.FindChunkIntended, Wave.FindChunkSpecStops, Wave.DecodeSpecIntended |
