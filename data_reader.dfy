/**
 * `ByteArrayDataReader`: a cursor over a byte array. Every read goes through
 * `readByte`, which advances the index before the array access that may
 * throw, so a failed read still moves the index one past the position it
 * tried. The private `ArrayDataReader` inside `SerializerReaderWriter` has the
 * same code and is this class in the model.
 */
module DataReader {
  import opened Java
  import Bytes

  /** Whether `n` bytes can be read starting at `index`. */
  predicate Available(length: nat, index: int, n: int)
  {
    0 <= index && index + n <= length
  }

  function Max(a: int, b: int): int { if a < b then b else a }

  /**
   * The index after reading `n >= 1` bytes one at a time from `index` in an
   * array of `length` bytes: the reads stop at the first position outside the
   * array, having moved past it.
   */
  function IndexAfter(length: nat, index: int, n: nat): (r: int)
    requires n >= 1
    ensures Available(length, index, n) ==> r == index + n
    ensures !Available(length, index, n) ==> index < r <= Max(index, length) + 1
  {
    if Available(length, index, n) then index + n
    else if index < 0 then index + 1
    else Max(index, length) + 1
  }

  /** The bits `readCompactBooleans` extracts: element `i` is `((b >> i) & 1) == 1`. */
  function CompactBooleans(b: byte): (r: seq<bool>)
    ensures |r| == 8 && forall i :: 0 <= i < 8 ==> r[i] == Bit(b, i)
  {
    seq(8, i requires 0 <= i < 8 => Bit(b, i))
  }

  class ByteArrayDataReader {
    const bytes: seq<byte>
    var index: int

    constructor(data: seq<byte>)
      ensures bytes == data && index == 0
    {
      bytes := data;
      index := 0;
    }

    /** `remaining()`: bytes left after the index (negative once the index has run past the end). */
    function Remaining(): int
      reads this
    {
      |bytes| - index
    }

    /**
     * `skip`: the index moves first, in int arithmetic; then it throws if no
     * byte is left at the new index. A skip that wraps the index round to a
     * negative value does not throw.
     */
    method Skip(count: int32) returns (r: Result<()>)
      modifies this
      ensures index == ToInt32(old(index) + count)
      ensures -INT_MAX - 1 <= old(index) + count <= INT_MAX ==> index == old(index) + count
      ensures r == if index >= |bytes| then Err(IndexOutOfBounds) else Ok(())
    {
      index := ToInt32(index + count);
      if index >= |bytes| {
        return Err(IndexOutOfBounds);
      }
      return Ok(());
    }

    /** `readByte`: `bytes[index++]`. */
    method ReadByte() returns (r: Result<byte>)
      modifies this
      ensures index == old(index) + 1 && Remaining() == old(Remaining()) - 1
      ensures r == if 0 <= old(index) < |bytes| then Ok(bytes[old(index)]) else Err(IndexOutOfBounds)
    {
      var i := index;
      index := index + 1;
      if !(0 <= i < |bytes|) {
        return Err(IndexOutOfBounds);
      }
      return Ok(bytes[i]);
    }

    /** `readInteger`: four bytes, the first sign-extended into the top eight bits. */
    method ReadInteger() returns (r: Result<int32>)
      modifies this
      ensures index == IndexAfter(|bytes|, old(index), 4)
      ensures r == if Available(|bytes|, old(index), 4) then Ok(Bytes.GetInteger(bytes, old(index)))
        else Err(IndexOutOfBounds)
    {
      var b0 := ReadByte();
      if b0.Err? { return Err(b0.error); }
      var b1 := ReadByte();
      if b1.Err? { return Err(b1.error); }
      var b2 := ReadByte();
      if b2.Err? { return Err(b2.error); }
      var b3 := ReadByte();
      if b3.Err? { return Err(b3.error); }
      var start := index - 4;
      IntegerFromBytes(bytes, start);
      return Ok(ToInt32(b0.value * 0x100_0000 + U8(b1.value) * 0x1_0000 + U8(b2.value) * 0x100 + U8(b3.value)));
    }

    /** `readShort`: two bytes, both masked, cast to short. */
    method ReadShort() returns (r: Result<short>)
      modifies this
      ensures index == IndexAfter(|bytes|, old(index), 2)
      ensures r == if Available(|bytes|, old(index), 2) then Ok(Bytes.GetShort(bytes, old(index)))
        else Err(IndexOutOfBounds)
    {
      var b0 := ReadByte();
      if b0.Err? { return Err(b0.error); }
      var b1 := ReadByte();
      if b1.Err? { return Err(b1.error); }
      Bytes.BE2(bytes[index - 2..index]);
      return Ok(ToShort(U8(b0.value) * 0x100 + U8(b1.value)));
    }

    /** `readLong`: eight bytes shifted in one at a time in long arithmetic. */
    method ReadLong() returns (r: Result<long>)
      modifies this
      ensures index == IndexAfter(|bytes|, old(index), 8)
      ensures r == if Available(|bytes|, old(index), 8) then Ok(Bytes.LongValue(bytes[old(index)..old(index) + 8]))
        else Err(IndexOutOfBounds)
    {
      var start := index;
      var value: long := 0;
      var i := 0;
      while i < 8
        invariant 0 <= i <= 8 && index == start + i
        invariant i == 0 ==> value == 0
        invariant i > 0 ==> Available(|bytes|, start, i) && value == ToLong(Bytes.BE(bytes[start..start + i]))
      {
        var b := ReadByte();
        if b.Err? {
          LongStops(|bytes|, start, i);
          return Err(b.error);
        }
        var u := U8(b.value);
        LongStep(bytes, start, i, value, u);
        value := ToLong(ToLong(value * 0x100) + u);
        i := i + 1;
      }
      return Ok(value);
    }

    /** `readBoolean`: true exactly for the byte 1. */
    method ReadBoolean() returns (r: Result<bool>)
      modifies this
      ensures index == old(index) + 1
      ensures r == if 0 <= old(index) < |bytes| then Ok(Bytes.GetBoolean(bytes, old(index))) else Err(IndexOutOfBounds)
    {
      var b := ReadByte();
      if b.Err? { return Err(b.error); }
      return Ok(b.value == 1);
    }

    /** `readCompactBooleans`: one byte, unpacked into its eight bits, lowest first. */
    method ReadCompactBooleans() returns (r: Result<seq<bool>>)
      modifies this
      ensures index == old(index) + 1
      ensures r == if 0 <= old(index) < |bytes| then Ok(CompactBooleans(bytes[old(index)])) else Err(IndexOutOfBounds)
    {
      var b := ReadByte();
      if b.Err? { return Err(b.error); }
      var eightbools := b.value;
      var booleans := new bool[8](_ => false);
      for i := 0 to 8
        modifies booleans
        invariant forall k :: 0 <= k < i ==> booleans[k] == Bit(eightbools, k)
      {
        booleans[i] := (eightbools / Pow2(i)) % 2 == 1;
      }
      assert booleans[..] == CompactBooleans(eightbools);
      return Ok(booleans[..]);
    }

    /** `readBytes(count)`: checks the count first; the copy then fails on a negative index. */
    method ReadBytes(count: int) returns (r: Result<seq<byte>>)
      modifies this
      ensures Available(|bytes|, old(index), count) && count >= 0
        ==> r == Ok(bytes[old(index)..old(index) + count]) && index == old(index) + count
      ensures !(Available(|bytes|, old(index), count) && count >= 0)
        ==> r == Err(IndexOutOfBounds) && index == old(index)
    {
      if |bytes| < index + count || count < 0 {
        return Err(IndexOutOfBounds);
      }
      if index < 0 {
        return Err(IndexOutOfBounds);
      }
      var data := bytes[index..index + count];
      index := index + count;
      return Ok(data);
    }

    /**
     * `readBytes(dest, offset)` as written: copies `dest.length - offset` bytes
     * only when strictly more than `dest.length` remain, and leaves the index
     * where it was.
     */
    method ReadBytesInto(dest: array<byte>, offset: int) returns (r: Result<()>)
      modifies dest
      ensures index == old(index)
      ensures dest.Length < Remaining() && 0 <= index && 0 <= offset <= dest.Length
        ==> r == Ok(()) && dest[..] == old(dest[..offset]) + bytes[index..index + dest.Length - offset]
      ensures !(dest.Length < Remaining() && 0 <= index && 0 <= offset <= dest.Length)
        ==> r == Err(IndexOutOfBounds) && dest[..] == old(dest[..])
    {
      if !(dest.Length < |bytes| - index) {
        return Err(IndexOutOfBounds);
      }
      if !(0 <= index && 0 <= offset <= dest.Length) {
        return Err(IndexOutOfBounds);
      }
      var c := Bytes.Copy(bytes[index..index + dest.Length - offset], dest, offset);
      return Ok(());
    }

    /**
     * `readBytes(dest, offset)` with the check and the cursor every other read
     * has: it copies `dest.length - offset` bytes whenever that many remain,
     * and consumes them.
     */
    method ReadBytesIntoIntended(dest: array<byte>, offset: int) returns (r: Result<()>)
      modifies this, dest
      ensures 0 <= offset <= dest.Length && Available(|bytes|, old(index), dest.Length - offset)
        ==> r == Ok(()) && index == old(index) + dest.Length - offset
            && dest[..] == old(dest[..offset]) + bytes[old(index)..index]
      ensures !(0 <= offset <= dest.Length && Available(|bytes|, old(index), dest.Length - offset))
        ==> r == Err(IndexOutOfBounds) && index == old(index) && dest[..] == old(dest[..])
    {
      if !(0 <= offset <= dest.Length && Available(|bytes|, index, dest.Length - offset)) {
        return Err(IndexOutOfBounds);
      }
      var c := Bytes.Copy(bytes[index..index + dest.Length - offset], dest, offset);
      index := index + dest.Length - offset;
      return Ok(());
    }
  }

  /** `readInteger`'s formula is `getInteger`'s: sign-extending the top byte changes no low 32 bits. */
  /** One pass of `readLong`'s loop: shifting in the next byte extends the big-endian value. */
  lemma LongStep(bytes: seq<byte>, start: int, i: nat, value: long, u: int)
    requires i < 8 && Available(|bytes|, start, i + 1) && u == U8(bytes[start + i])
    requires i == 0 ==> value == 0
    requires i > 0 ==> value == ToLong(Bytes.BE(bytes[start..start + i]))
    ensures ToLong(ToLong(value * 0x100) + u) == ToLong(Bytes.BE(bytes[start..start + i + 1]))
  {
    assert bytes[start..start + i + 1][..i] == bytes[start..start + i];
    if i == 0 {
      WrapId(0, 0x1_0000_0000_0000_0000);
    }
    WrapMulAdd(value * 0x100, 1, u, 0x1_0000_0000_0000_0000);
    WrapMulAdd(Bytes.BE(bytes[start..start + i]), 0x100, u, 0x1_0000_0000_0000_0000);
  }

  /** A byte that `readLong` fails to read ends it one past that byte. */
  lemma LongStops(length: nat, start: int, i: nat)
    requires i < 8 && (i > 0 ==> Available(length, start, i)) && !(0 <= start + i < length)
    ensures !Available(length, start, 8) && IndexAfter(length, start, 8) == start + i + 1
  {
  }

  /**
   * From index 10, `skip(Integer.MAX_VALUE)` wraps the index to a negative
   * value, below any array length, so `skip` does not throw.
   */
  lemma SkipPastMaxWraps(length: nat)
    ensures ToInt32(10 + INT_MAX) == -2147483639 < length
  {
    WrapShift(10 + INT_MAX - 0x1_0000_0000, 1, 0x1_0000_0000);
  }

  lemma IntegerFromBytes(bytes: seq<byte>, start: int)
    requires Available(|bytes|, start, 4)
    ensures ToInt32(bytes[start] * 0x100_0000 + U8(bytes[start + 1]) * 0x1_0000
        + U8(bytes[start + 2]) * 0x100 + U8(bytes[start + 3]))
      == Bytes.GetInteger(bytes, start)
  {
    var rest := U8(bytes[start + 1]) * 0x1_0000 + U8(bytes[start + 2]) * 0x100 + U8(bytes[start + 3]);
    U8Value(bytes[start]);
    WrapShift(bytes[start] * 0x100_0000 + rest, 1, 0x1_0000_0000);
  }

  /** With exactly `dest.length` bytes left, the as-written copy refuses what would fit. */
  lemma ReadBytesIntoRefusesExactFit(bytes: seq<byte>, index: int, destLength: nat)
    requires 0 <= index && |bytes| - index == destLength
    ensures !(destLength < |bytes| - index)
    ensures Available(|bytes|, index, destLength)
  {
  }

  // `readCompactBooleans` against the packing that produces such a byte.

  /** Reading back eight flags stored as one (signed) byte gives the flags. */
  lemma CompactBooleansRoundTrip(flags: seq<bool>)
    requires |flags| == 8
    ensures CompactBooleans(ToByte(Pack(flags))) == flags
  {
    var p: int := Pack(flags);
    assert Pow2(8) == 0x100;
    var b := ToByte(p);
    if p < 0x80 {
      WrapId(p, 0x100);
    } else {
      WrapShift(p - 0x100, 1, 0x100);
      WrapId(p - 0x100, 0x100);
    }
    forall i | 0 <= i < 8
      ensures Bit(b, i) == flags[i]
    {
      BitsOfPack(flags, i);
      HighByteKeepsBit(if p < 0x80 then 0 else -1, p, i);
    }
    assert CompactBooleans(b) == flags;
  }
}
