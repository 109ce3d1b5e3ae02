/**
 * `SerializerReaderWriter`: a registry of type identifiers and the framing
 * `[type: short][length: int][payload]` it writes and reads back.
 *
 * A `Transportable` object is its class name and the payload its `getBytes`
 * produces. An `ObjectBuilder` is a function from the unread bytes to the
 * object it builds and the number of bytes it consumed, or to the exception
 * it threw; the reader's index moves past what it consumed.
 */
module Serializer {
  import opened Java
  import Bytes
  import DataReader

  type ClassName = string

  datatype Transportable = Transportable(cls: ClassName, bytes: seq<byte>)

  datatype Built = Built(value: Transportable, consumed: nat)

  type Builder = seq<byte> -> Result<Built>

  const NULL_TYPE: short := 0

  /** The frame of a non-null object: type, payload length, payload. */
  function Frame(typeID: short, payload: seq<byte>): (r: seq<byte>)
    requires |payload| <= INT_MAX
    ensures |r| == 6 + |payload| && r[6..] == payload
  {
    Bytes.ShortBytes(typeID) + Bytes.IntBytes(|payload|) + payload
  }

  /**
   * What a builder does to a reader holding `rest`: it cannot consume more
   * bytes than there are, since reading past the end throws.
   */
  function Apply(builder: Builder, rest: seq<byte>): (r: Result<Built>)
    ensures r.Ok? ==> r.value.consumed <= |rest|
  {
    match builder(rest)
    case Ok(b) => if b.consumed <= |rest| then Ok(b) else Err(IndexOutOfBounds)
    case Err(e) => Err(e)
  }

  /** `IndexOutOfBoundsException` becomes `SerializationException`; the others pass through. */
  function Rethrow(e: Exception): Exception
  {
    if e == IndexOutOfBounds then Serialization else e
  }

  /**
   * `readObject(type, length)` on a reader at `start`: the builder for `type`
   * must consume exactly `length` bytes. Yields the object and the new index.
   */
  function ReadTyped(lookup: map<short, Builder>, bytes: seq<byte>, start: int, typeID: short, length: int)
    : (r: Result<(Transportable, int)>)
    requires 0 <= start <= |bytes|
    ensures r.Ok? ==> r.value.1 == start + length && length >= 0
  {
    if typeID !in lookup then Err(TypeNotRegistered)
    else match Apply(lookup[typeID], bytes[start..])
      case Err(e) => Err(Rethrow(e))
      case Ok(b) => if b.consumed != length then Err(Serialization) else Ok((b.value, start + b.consumed))
  }

  /**
   * `readObject()` on a reader at `index`: a type, then (unless it is the null
   * type) a length and the object. Running off the end is a serialization error.
   */
  function ReadObjectAt(lookup: map<short, Builder>, bytes: seq<byte>, index: int)
    : (r: Result<(Option<Transportable>, int)>)
    ensures r.Ok? ==> index < r.value.1 <= |bytes|
    ensures r.Ok? && r.value.0.None? ==> r.value.1 == index + 2
  {
    if !DataReader.Available(|bytes|, index, 2) then Err(Serialization)
    else
      var typeID := Bytes.GetShort(bytes, index);
      if typeID == NULL_TYPE then Ok((None, index + 2))
      else if !DataReader.Available(|bytes|, index + 2, 4) then Err(Serialization)
      else match ReadTyped(lookup, bytes, index + 6, typeID, Bytes.GetInteger(bytes, index + 2))
        case Err(e) => Err(e)
        case Ok(read) => Ok((Some(read.0), read.1))
  }

  /** The object `readObject` returns, without the index. */
  function Value(r: Result<(Option<Transportable>, int)>): Result<Option<Transportable>>
  {
    if r.Ok? then Ok(r.value.0) else Err(r.error)
  }

  class SerializerReaderWriter {
    var deserializeLookup: map<short, Builder>
    var serializeLookup: map<ClassName, short>

    /** No class is written with the reserved null type. */
    predicate Valid()
      reads this
    {
      forall c | c in serializeLookup :: serializeLookup[c] != NULL_TYPE
    }

    constructor()
      ensures Valid() && deserializeLookup == map[] && serializeLookup == map[]
    {
      deserializeLookup := map[];
      serializeLookup := map[];
    }

    /** `registerWrite`: 0 is reserved, and a class gets one identifier only. */
    method RegisterWrite(identifier: short, cls: ClassName) returns (r: Result<()>)
      requires Valid()
      modifies this
      ensures Valid() && deserializeLookup == old(deserializeLookup)
      ensures identifier == NULL_TYPE || cls in old(serializeLookup)
        ==> r == Err(IllegalArgument) && serializeLookup == old(serializeLookup)
      ensures !(identifier == NULL_TYPE || cls in old(serializeLookup))
        ==> r == Ok(()) && serializeLookup == old(serializeLookup)[cls := identifier]
    {
      if identifier == NULL_TYPE {
        return Err(IllegalArgument);
      }
      if cls in serializeLookup {
        return Err(IllegalArgument);
      }
      serializeLookup := serializeLookup[cls := identifier];
      return Ok(());
    }

    /** `registerRead`: an identifier gets one builder only. */
    method RegisterRead(identifier: short, builder: Builder) returns (r: Result<()>)
      modifies this
      ensures serializeLookup == old(serializeLookup)
      ensures identifier in old(deserializeLookup)
        ==> r == Err(IllegalArgument) && deserializeLookup == old(deserializeLookup)
      ensures identifier !in old(deserializeLookup)
        ==> r == Ok(()) && deserializeLookup == old(deserializeLookup)[identifier := builder]
    {
      if identifier in deserializeLookup {
        return Err(IllegalArgument);
      }
      deserializeLookup := deserializeLookup[identifier := builder];
      return Ok(());
    }

    /** `register`: the write side, then the read side; a failing read side keeps the write side. */
    method Register(identifier: short, cls: ClassName, builder: Builder) returns (r: Result<()>)
      requires Valid()
      modifies this
      ensures Valid()
      ensures identifier == NULL_TYPE || cls in old(serializeLookup)
        ==> (r == Err(IllegalArgument) && serializeLookup == old(serializeLookup)
          && deserializeLookup == old(deserializeLookup))
      ensures !(identifier == NULL_TYPE || cls in old(serializeLookup))
        ==> (serializeLookup == old(serializeLookup)[cls := identifier]
          && (identifier in old(deserializeLookup)
            ==> r == Err(IllegalArgument) && deserializeLookup == old(deserializeLookup))
          && (identifier !in old(deserializeLookup)
            ==> r == Ok(()) && deserializeLookup == old(deserializeLookup)[identifier := builder]))
    {
      r := RegisterWrite(identifier, cls);
      if r.Err? {
        return;
      }
      r := RegisterRead(identifier, builder);
    }

    /** `serialize`: null is the null type alone; a registered object is framed with its identifier. */
    method Serialize(obj: Option<Transportable>) returns (r: Result<seq<byte>>)
      requires obj.Some? ==> |obj.value.bytes| <= INT_MAX - 6
      ensures obj.None? ==> r == Ok(Bytes.ShortBytes(NULL_TYPE))
      ensures obj.Some? && obj.value.cls !in serializeLookup ==> r == Err(TypeNotRegistered)
      ensures obj.Some? && obj.value.cls in serializeLookup
        ==> r == Ok(Frame(serializeLookup[obj.value.cls], obj.value.bytes))
    {
      if obj.None? {
        var nullBytes := Bytes.OfShort(NULL_TYPE);
        return Ok(nullBytes[..]);
      }
      if obj.value.cls !in serializeLookup {
        return Err(TypeNotRegistered);
      }
      var typeID := serializeLookup[obj.value.cls];
      var objectBytes := obj.value.bytes;
      var concatenated := Bytes.ConcatenateAt(6, [objectBytes]);
      var data := concatenated.value;
      Bytes.FlattenSingle(objectBytes);
      Bytes.PutShort(data, 0, typeID);
      Bytes.PutInteger(data, 2, |objectBytes|);
      FrameFilled(typeID, objectBytes);
      return Ok(data[..]);
    }

    /** `readObject()` on `reader`, advancing it past the object when it succeeds. */
    method ReadObject(reader: DataReader.ByteArrayDataReader) returns (r: Result<Option<Transportable>>)
      modifies reader
      ensures r == Value(ReadObjectAt(deserializeLookup, reader.bytes, old(reader.index)))
      ensures r.Ok? ==> reader.index == ReadObjectAt(deserializeLookup, reader.bytes, old(reader.index)).value.1
    {
      var typeID := reader.ReadShort();
      if typeID.Err? {
        return Err(Serialization);
      }
      if typeID.value == NULL_TYPE {
        return Ok(None);
      }
      var length := reader.ReadInteger();
      if length.Err? {
        return Err(Serialization);
      }
      var obj := ReadTypedObject(reader, typeID.value, length.value);
      if obj.Err? {
        return Err(obj.error);
      }
      return Ok(Some(obj.value));
    }

    /** `readObject(type, length)`: compares what the builder consumed with `length`. */
    method ReadTypedObject(reader: DataReader.ByteArrayDataReader, typeID: short, length: int32)
      returns (r: Result<Transportable>)
      requires 0 <= reader.index <= |reader.bytes|
      modifies reader
      ensures var spec := ReadTyped(deserializeLookup, reader.bytes, old(reader.index), typeID, length);
        (r.Ok? <==> spec.Ok?) && (r.Ok? ==> r.value == spec.value.0 && reader.index == spec.value.1)
        && (r.Err? ==> r.error == spec.error)
    {
      var totalRemaining := reader.Remaining();
      if typeID !in deserializeLookup {
        return Err(TypeNotRegistered);
      }
      var built := Apply(deserializeLookup[typeID], reader.bytes[reader.index..]);
      if built.Err? {
        return Err(Rethrow(built.error));
      }
      reader.index := reader.index + built.value.consumed;
      var bytesRead := totalRemaining - reader.Remaining();
      if bytesRead > length {
        return Err(Serialization);
      } else if bytesRead < length {
        return Err(Serialization);
      }
      return Ok(built.value.value);
    }

    /** `deserialize(byte[])`: `readObject()` on a fresh reader over the bytes. */
    method Deserialize(data: seq<byte>) returns (r: Result<Option<Transportable>>)
      ensures r == Value(ReadObjectAt(deserializeLookup, data, 0))
    {
      var reader := new DataReader.ByteArrayDataReader(data);
      r := ReadObject(reader);
    }
  }

  // Reading back what `serialize` wrote.

  lemma FrameFields(typeID: short, payload: seq<byte>, rest: seq<byte>)
    requires |payload| <= INT_MAX
    ensures var s := Frame(typeID, payload) + rest;
      Bytes.GetShort(s, 0) == typeID && Bytes.GetInteger(s, 2) == |payload| && s[6..] == payload + rest
  {
    var head := Bytes.ShortBytes(typeID) + Bytes.IntBytes(|payload|);
    var s := head + (payload + rest);
    assert s == Frame(typeID, payload) + rest;
    assert s[0..2] == head[0..2] == Bytes.ShortBytes(typeID);
    assert s[2..6] == head[2..6] == Bytes.IntBytes(|payload|);
    ShortDecoded(typeID);
    IntDecoded(|payload|);
    assert Bytes.GetShort(s, 0) == typeID;
    assert Bytes.GetInteger(s, 2) == |payload|;
  }

  lemma ShortDecoded(value: short)
    ensures ToShort(Bytes.BE(Bytes.ShortBytes(value))) == value
  {
    Bytes.BEEncode(value, 2);
    assert Bytes.Pow256(2) == 0x1_0000;
    WrapModId(value, 0x1_0000);
  }

  lemma IntDecoded(value: int32)
    ensures ToInt32(Bytes.BE(Bytes.IntBytes(value))) == value
  {
    Bytes.BEEncode(value, 4);
    assert Bytes.Pow256(4) == 0x1_0000_0000;
    WrapModId(value, 0x1_0000_0000);
  }

  /** The three writes of `serialize` on the zero-padded payload produce the frame. */
  lemma FrameFilled(typeID: short, payload: seq<byte>)
    requires |payload| <= INT_MAX
    ensures Bytes.Splice(Bytes.Splice(Zeros(6) + payload, 0, Bytes.ShortBytes(typeID)), 2, Bytes.IntBytes(|payload|))
      == Frame(typeID, payload)
  {
    var header := Bytes.ShortBytes(typeID) + Bytes.IntBytes(|payload|);
    Bytes.SpliceAppend(Zeros(6) + payload, 0, Bytes.ShortBytes(typeID), Bytes.IntBytes(|payload|));
    Bytes.OverZeros(header, payload);
  }

  /**
   * An object written with a registered identifier whose builder reads back
   * exactly the payload is read back, and the reader ends just after it.
   */
  lemma SerializeRoundTrip(lookup: map<short, Builder>, typeID: short, obj: Transportable, rest: seq<byte>)
    requires typeID != NULL_TYPE && |obj.bytes| <= INT_MAX
    requires typeID in lookup && lookup[typeID](obj.bytes + rest) == Ok(Built(obj, |obj.bytes|))
    ensures ReadObjectAt(lookup, Frame(typeID, obj.bytes) + rest, 0) == Ok((Some(obj), 6 + |obj.bytes|))
  {
    FrameFields(typeID, obj.bytes, rest);
  }

  /** The null frame reads back as null after two bytes, whatever follows. */
  lemma NullRoundTrip(lookup: map<short, Builder>, rest: seq<byte>)
    ensures ReadObjectAt(lookup, Bytes.ShortBytes(NULL_TYPE) + rest, 0) == Ok((None, 2))
  {
    var s := Bytes.ShortBytes(NULL_TYPE) + rest;
    assert s[0..2] == Bytes.ShortBytes(NULL_TYPE);
    ShortDecoded(NULL_TYPE);
  }

  /** A builder that consumes other than the announced length is a serialization error. */
  lemma LengthMismatch(lookup: map<short, Builder>, typeID: short, payload: seq<byte>, rest: seq<byte>, built: Built)
    requires typeID != NULL_TYPE && |payload| <= INT_MAX
    requires typeID in lookup && lookup[typeID](payload + rest) == Ok(built)
    requires built.consumed != |payload| && built.consumed <= |payload + rest|
    ensures ReadObjectAt(lookup, Frame(typeID, payload) + rest, 0) == Err(Serialization)
  {
    FrameFields(typeID, payload, rest);
  }

  /** A non-null type with no builder is reported as unregistered. */
  lemma UnregisteredType(lookup: map<short, Builder>, typeID: short, payload: seq<byte>, rest: seq<byte>)
    requires typeID != NULL_TYPE && typeID !in lookup && |payload| <= INT_MAX
    ensures ReadObjectAt(lookup, Frame(typeID, payload) + rest, 0) == Err(TypeNotRegistered)
  {
    FrameFields(typeID, payload, rest);
  }

  // Sequences of objects, as the grid and world readers use them.

  /** What `serialize` yields for `obj` under the class-to-identifier map `lookup`. */
  function Encoded(lookup: map<ClassName, short>, obj: Option<Transportable>): (r: Result<seq<byte>>)
    requires obj.Some? ==> |obj.value.bytes| <= INT_MAX
    ensures r.Ok? ==> |r.value| >= 2
  {
    match obj
    case None => Ok(Bytes.ShortBytes(NULL_TYPE))
    case Some(o) => if o.cls in lookup then Ok(Frame(lookup[o.cls], o.bytes)) else Err(TypeNotRegistered)
  }

  /**
   * `obj` can be written, and the builder registered for its identifier reads
   * exactly its payload back, whatever follows it.
   */
  ghost predicate Readable(writeLookup: map<ClassName, short>, readLookup: map<short, Builder>, obj: Option<Transportable>)
  {
    obj.Some? ==> (
      |obj.value.bytes| <= INT_MAX && obj.value.cls in writeLookup && writeLookup[obj.value.cls] != NULL_TYPE
      && writeLookup[obj.value.cls] in readLookup && ReadsBack(readLookup[writeLookup[obj.value.cls]], obj.value))
  }

  /** `builder` consumes exactly `o`'s payload and builds `o`, whatever follows the payload. */
  ghost predicate ReadsBack(builder: Builder, o: Transportable)
  {
    forall rest: seq<byte> :: builder(Followed(o, rest)) == Ok(Built(o, |o.bytes|))
  }

  /** `o`'s payload with `rest` after it. */
  function Followed(o: Transportable, rest: seq<byte>): seq<byte>
  {
    o.bytes + rest
  }

  /** A readable object is written, and read back from wherever it was written to. */
  lemma ReadEncoded(writeLookup: map<ClassName, short>, readLookup: map<short, Builder>, obj: Option<Transportable>,
      head: seq<byte>, rest: seq<byte>)
    requires Readable(writeLookup, readLookup, obj)
    ensures Encoded(writeLookup, obj).Ok?
    ensures ReadObjectAt(readLookup, head + (Encoded(writeLookup, obj).value + rest), |head|)
      == Ok((obj, |head| + |Encoded(writeLookup, obj).value|))
  {
    if obj.None? {
      NullRoundTrip(readLookup, rest);
    } else {
      var o := obj.value;
      assert readLookup[writeLookup[o.cls]](Followed(o, rest)) == Ok(Built(o, |o.bytes|));
      SerializeRoundTrip(readLookup, writeLookup[o.cls], o, rest);
    }
    var written := Encoded(writeLookup, obj).value;
    ReadAfter(readLookup, head, written + rest, obj, |written|);
  }

  /** A result of reading one object, with the index moved by `offset`. */
  function Shifted(r: Result<(Option<Transportable>, int)>, offset: int): Result<(Option<Transportable>, int)>
  {
    if r.Ok? then Ok((r.value.0, r.value.1 + offset)) else r
  }

  /** Reading at `index` only looks at the bytes from `index` on. */
  lemma ReadObjectAtShift(lookup: map<short, Builder>, bytes: seq<byte>, index: int)
    requires 0 <= index <= |bytes|
    ensures ReadObjectAt(lookup, bytes, index) == Shifted(ReadObjectAt(lookup, bytes[index..], 0), index)
  {
    var tail := bytes[index..];
    if DataReader.Available(|bytes|, index, 2) {
      assert bytes[index..index + 2] == tail[0..2];
      if DataReader.Available(|bytes|, index + 2, 4) {
        assert bytes[index + 2..index + 6] == tail[2..6];
        assert bytes[index + 6..] == tail[6..];
      }
    }
  }

  /** A function reading one object at an index, as `readObject` does on a reader at that index. */
  type ObjectReader = (seq<byte>, int) -> Result<(Option<Transportable>, int)>

  function Reader(lookup: map<short, Builder>): ObjectReader
  {
    (bytes, index) => ReadObjectAt(lookup, bytes, index)
  }

  /**
   * `count` objects read one after another from `index` by `read`: the
   * objects and the index after the last, or the first failure.
   */
  function ReadAll(read: ObjectReader, bytes: seq<byte>, index: int, count: nat)
    : (r: Result<(seq<Option<Transportable>>, int)>)
    ensures r.Ok? ==> |r.value.0| == count
    ensures r.Ok? && count == 0 ==> r.value.1 == index
  {
    if count == 0 then Ok(([], index))
    else match ReadAll(read, bytes, index, count - 1)
      case Err(e) => Err(e)
      case Ok(init) =>
        match read(bytes, init.1)
        case Err(e) => Err(e)
        case Ok(last) => Ok((init.0 + [last.0], last.1))
  }

  /** `count` objects read one after another from `index` under `lookup`. */
  function ReadObjects(lookup: map<short, Builder>, bytes: seq<byte>, index: int, count: nat)
    : Result<(seq<Option<Transportable>>, int)>
  {
    ReadAll(Reader(lookup), bytes, index, count)
  }

  /** What `serialize` yields for each object, in order, or the first failure. */
  function EncodeAll(lookup: map<ClassName, short>, objs: seq<Option<Transportable>>): (r: Result<seq<seq<byte>>>)
    requires forall k | 0 <= k < |objs| :: objs[k].Some? ==> |objs[k].value.bytes| <= INT_MAX
    ensures r.Ok? ==> |r.value| == |objs|
  {
    if objs == [] then Ok([])
    else match EncodeAll(lookup, objs[..|objs| - 1])
      case Err(e) => Err(e)
      case Ok(init) =>
        match Encoded(lookup, objs[|objs| - 1])
        case Err(e) => Err(e)
        case Ok(last) => Ok(init + [last])
  }

  /** Readable objects written one after another are read back one after another. */
  lemma {:induction false} ReadObjectsRoundTrip(writeLookup: map<ClassName, short>, readLookup: map<short, Builder>,
      objs: seq<Option<Transportable>>, prefix: seq<byte>, rest: seq<byte>)
    requires forall k | 0 <= k < |objs| :: objs[k].Some? ==> |objs[k].value.bytes| <= INT_MAX
    requires forall k | 0 <= k < |objs| :: Readable(writeLookup, readLookup, objs[k])
    ensures EncodeAll(writeLookup, objs).Ok?
    ensures ReadObjects(readLookup, prefix + Bytes.Flatten(EncodeAll(writeLookup, objs).value) + rest, |prefix|, |objs|)
      == Ok((objs, |prefix| + |Bytes.Flatten(EncodeAll(writeLookup, objs).value)|))
  {
    EncodedEach(writeLookup, readLookup, objs);
    ReadChunksBack(readLookup, objs, EncodeAll(writeLookup, objs).value, prefix, rest);
  }

  /** Chunks that each read back as their object read back, in order, as the objects. */
  lemma ReadChunksBack(readLookup: map<short, Builder>, objs: seq<Option<Transportable>>, chunks: seq<seq<byte>>,
      prefix: seq<byte>, rest: seq<byte>)
    requires ReadsChunks(Reader(readLookup), objs, chunks)
    ensures ReadObjects(readLookup, prefix + Bytes.Flatten(chunks) + rest, |prefix|, |objs|)
      == Ok((objs, |prefix| + |Bytes.Flatten(chunks)|))
  {
    ReadAllChunks(Reader(readLookup), objs, chunks, prefix, rest);
  }

  /** Each readable object's encoding is read back by `readObject`, wherever it sits. */
  lemma {:induction false} EncodedEach(writeLookup: map<ClassName, short>, readLookup: map<short, Builder>, objs: seq<Option<Transportable>>)
    requires forall k | 0 <= k < |objs| :: objs[k].Some? ==> |objs[k].value.bytes| <= INT_MAX
    requires forall k | 0 <= k < |objs| :: Readable(writeLookup, readLookup, objs[k])
    ensures EncodeAll(writeLookup, objs).Ok?
    ensures ReadsChunks(Reader(readLookup), objs, EncodeAll(writeLookup, objs).value)
  {
    AllEncoded(writeLookup, readLookup, objs);
    EncodeAllEach(writeLookup, objs);
    ChunksReadBack(writeLookup, readLookup, objs, EncodeAll(writeLookup, objs).value);
  }

  lemma ChunksReadBack(writeLookup: map<ClassName, short>, readLookup: map<short, Builder>,
      objs: seq<Option<Transportable>>, chunks: seq<seq<byte>>)
    requires |chunks| == |objs|
    requires forall k | 0 <= k < |objs| ::
      Readable(writeLookup, readLookup, objs[k]) && Encoded(writeLookup, objs[k]) == Ok(chunks[k])
    ensures ReadsChunks(Reader(readLookup), objs, chunks)
  {
    forall k | 0 <= k < |objs|
      ensures ReadsChunk(Reader(readLookup), objs[k], chunks[k])
    {
      ChunkReadsBack(writeLookup, readLookup, objs[k], chunks[k]);
    }
  }

  lemma ChunkReadsBack(writeLookup: map<ClassName, short>, readLookup: map<short, Builder>, obj: Option<Transportable>,
      chunk: seq<byte>)
    requires Readable(writeLookup, readLookup, obj) && Encoded(writeLookup, obj) == Ok(chunk)
    ensures ReadsChunk(Reader(readLookup), obj, chunk)
  {
    forall head: seq<byte>, tail: seq<byte>
      ensures Reader(readLookup)(head + (chunk + tail), |head|) == Ok((obj, |head| + |chunk|))
    {
      ReadEncoded(writeLookup, readLookup, obj, head, tail);
    }
  }

  lemma AllEncoded(writeLookup: map<ClassName, short>, readLookup: map<short, Builder>, objs: seq<Option<Transportable>>)
    requires forall k | 0 <= k < |objs| :: objs[k].Some? ==> |objs[k].value.bytes| <= INT_MAX
    requires forall k | 0 <= k < |objs| :: Readable(writeLookup, readLookup, objs[k])
    ensures forall k | 0 <= k < |objs| :: Encoded(writeLookup, objs[k]).Ok?
  {
  }

  /** Every object is encoded, so all of them are, each to its own encoding. */
  lemma {:induction false} EncodeAllEach(lookup: map<ClassName, short>, objs: seq<Option<Transportable>>)
    requires forall k | 0 <= k < |objs| :: objs[k].Some? ==> |objs[k].value.bytes| <= INT_MAX
    requires forall k | 0 <= k < |objs| :: Encoded(lookup, objs[k]).Ok?
    ensures EncodeAll(lookup, objs).Ok?
    ensures forall k | 0 <= k < |objs| :: EncodeAll(lookup, objs).value[k] == Encoded(lookup, objs[k]).value
    decreases |objs|
  {
    if objs != [] {
      var init := objs[..|objs| - 1];
      EncodeAllEach(lookup, init);
    }
  }

  /**
   * Chunks that `read` reads back as the objects, wherever they sit, are read
   * back one after another when they are written one after another.
   */
  lemma {:induction false} ReadAllChunks(read: ObjectReader, objs: seq<Option<Transportable>>, chunks: seq<seq<byte>>,
      prefix: seq<byte>, rest: seq<byte>)
    requires ReadsChunks(read, objs, chunks)
    ensures ReadAll(read, prefix + Bytes.Flatten(chunks) + rest, |prefix|, |objs|)
      == Ok((objs, |prefix| + |Bytes.Flatten(chunks)|))
    decreases |objs|
  {
    if objs != [] {
      var n := |objs| - 1;
      var init := objs[..n];
      var last := objs[n];
      var initBytes := Bytes.Flatten(chunks[..n]);
      var lastBytes := chunks[n];
      ReadAllChunks(read, init, chunks[..n], prefix, lastBytes + rest);
      assert read(prefix + initBytes + (lastBytes + rest), |prefix + initBytes|)
        == Ok((last, |prefix + initBytes| + |lastBytes|));
      ReadAllStep(read, init, last, prefix, initBytes, lastBytes, rest);
      assert init + [last] == objs;
    } else {
      assert prefix + [] + rest == prefix + rest;
    }
  }

  /** `read` reads the `k`-th object out of the `k`-th chunk, wherever the chunk sits. */
  ghost predicate ReadsChunks(read: ObjectReader, objs: seq<Option<Transportable>>, chunks: seq<seq<byte>>)
  {
    |chunks| == |objs| && forall k | 0 <= k < |objs| :: ReadsChunk(read, objs[k], chunks[k])
  }

  /** `read` reads `obj` out of `chunk`, wherever the chunk sits. */
  ghost predicate ReadsChunk(read: ObjectReader, obj: Option<Transportable>, chunk: seq<byte>)
  {
    forall head: seq<byte>, tail: seq<byte> {:trigger read(head + (chunk + tail), |head|)}
      :: read(head + (chunk + tail), |head|) == Ok((obj, |head| + |chunk|))
  }

  /** The inductive step: the first objects read back, then the last one right after them. */
  lemma {:induction false} ReadAllStep(read: ObjectReader, init: seq<Option<Transportable>>, last: Option<Transportable>,
      prefix: seq<byte>, initBytes: seq<byte>, lastBytes: seq<byte>, rest: seq<byte>)
    requires ReadAll(read, prefix + initBytes + (lastBytes + rest), |prefix|, |init|) == Ok((init, |prefix| + |initBytes|))
    requires read(prefix + initBytes + (lastBytes + rest), |prefix + initBytes|)
      == Ok((last, |prefix + initBytes| + |lastBytes|))
    ensures ReadAll(read, prefix + (initBytes + lastBytes) + rest, |prefix|, |init| + 1)
      == Ok((init + [last], |prefix| + |initBytes + lastBytes|))
  {
    Regroup(prefix, initBytes, lastBytes, rest);
  }

  /** An object read from `tail` is read from the same place after `head`. */
  lemma ReadAfter(lookup: map<short, Builder>, head: seq<byte>, tail: seq<byte>, obj: Option<Transportable>, length: int)
    requires ReadObjectAt(lookup, tail, 0) == Ok((obj, length))
    ensures ReadObjectAt(lookup, head + tail, |head|) == Ok((obj, |head| + length))
  {
    assert (head + tail)[|head|..] == tail;
    ReadObjectAtShift(lookup, head + tail, |head|);
  }

  /** One more object: the objects read so far, then the next one, or the first failure. */
  lemma ReadObjectsNext(lookup: map<short, Builder>, bytes: seq<byte>, index: int, count: nat)
    requires ReadObjects(lookup, bytes, index, count).Ok?
    ensures var init := ReadObjects(lookup, bytes, index, count).value;
      ReadObjects(lookup, bytes, index, count + 1) ==
        match ReadObjectAt(lookup, bytes, init.1)
        case Err(e) => Err(e)
        case Ok(last) => Ok((init.0 + [last.0], last.1))
  {
  }

  /** Once reading fails, reading more objects fails the same way. */
  lemma {:induction false} ReadAllFails(read: ObjectReader, bytes: seq<byte>, index: int, count: nat, total: nat)
    requires count <= total && ReadAll(read, bytes, index, count).Err?
    ensures ReadAll(read, bytes, index, total) == ReadAll(read, bytes, index, count)
    decreases total
  {
    if count < total {
      ReadAllFails(read, bytes, index, count, total - 1);
    }
  }

  /** Once writing fails, writing more objects fails the same way. */
  lemma {:induction false} EncodeAllFails(lookup: map<ClassName, short>, objs: seq<Option<Transportable>>, count: nat)
    requires forall k | 0 <= k < |objs| :: objs[k].Some? ==> |objs[k].value.bytes| <= INT_MAX
    requires count <= |objs| && EncodeAll(lookup, objs[..count]).Err?
    ensures EncodeAll(lookup, objs) == EncodeAll(lookup, objs[..count])
    decreases |objs|
  {
    if count < |objs| {
      var init := objs[..|objs| - 1];
      assert init[..count] == objs[..count];
      EncodeAllFails(lookup, init, count);
    } else {
      assert objs[..count] == objs;
    }
  }

  /** One more object: the encodings so far, then the next one's, or the first failure. */
  lemma EncodeAllNext(lookup: map<ClassName, short>, objs: seq<Option<Transportable>>, count: nat)
    requires forall k | 0 <= k < |objs| :: objs[k].Some? ==> |objs[k].value.bytes| <= INT_MAX
    requires count < |objs| && EncodeAll(lookup, objs[..count]).Ok?
    ensures EncodeAll(lookup, objs[..count + 1]) ==
      match Encoded(lookup, objs[count])
      case Err(e) => Err(e)
      case Ok(last) => Ok(EncodeAll(lookup, objs[..count]).value + [last])
  {
    assert objs[..count + 1][..count] == objs[..count];
  }

  lemma Regroup(a: seq<byte>, b: seq<byte>, c: seq<byte>, d: seq<byte>)
    ensures a + b + (c + d) == a + (b + c) + d
  {
  }
}
