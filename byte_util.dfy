/**
 * `ByteUtil`, the older twin of `Bytes`. Its getters, putters, `copy` and
 * `subArray` have the same bodies as those of `Bytes` and are the `Bytes`
 * members of this model; what differs is its concatenation, which is here.
 */
module ByteUtil {
  import opened Java
  import Bytes

  /**
   * `concatenate(destination, offset, arrays)`: the arrays written one after
   * another from `offset`; returns the number of bytes written. Callers must
   * supply a destination with room for them.
   */
  method ConcatenateInto(destination: array<byte>, offset: int, arrays: seq<seq<byte>>) returns (r: Result<int>)
    requires offset >= 0 ==> offset + Bytes.TotalLength(arrays) <= destination.Length
    modifies destination
    ensures offset < 0 ==> r == Err(IndexOutOfBounds) && destination[..] == old(destination[..])
    ensures offset >= 0 ==> (r == Ok(Bytes.TotalLength(arrays))
      && destination[..] == Bytes.Splice(old(destination[..]), offset, Bytes.Flatten(arrays)))
  {
    if offset < 0 {
      return Err(IndexOutOfBounds);
    }
    var index := offset;
    var k := 0;
    assert arrays[0..] == arrays;
    while k < |arrays|
      invariant 0 <= k <= |arrays|
      invariant index == offset + |Bytes.Flatten(arrays[..k])|
      invariant index + |Bytes.Flatten(arrays[k..])| <= destination.Length
      invariant destination[..] == Bytes.Splice(old(destination[..]), offset, Bytes.Flatten(arrays[..k]))
    {
      Bytes.CopyNext(destination, old(destination[..]), offset, arrays, k, index);
      index := index + |arrays[k]|;
      k := k + 1;
    }
    assert arrays[..k] == arrays;
    return Ok(index - offset);
  }

  /**
   * `concatenate(offset, arrays)` as written: the running length starts at
   * `offset` and is then passed as the total of the arrays, so the fresh array
   * holds `offset` zero bytes, the arrays, and `offset` more zero bytes.
   */
  method ConcatenateAt(offset: int, arrays: seq<seq<byte>>) returns (r: Result<array<byte>>)
    ensures offset >= 0 ==> (r.Ok? && fresh(r.value)
      && r.value[..] == Zeros(offset) + Bytes.Flatten(arrays) + Zeros(offset))
    ensures offset < 0 && 2 * offset + Bytes.TotalLength(arrays) >= 0 ==> r == Err(IndexOutOfBounds)
    ensures 2 * offset + Bytes.TotalLength(arrays) < 0 ==> r == Err(NegativeArraySize)
  {
    var length := offset;
    var k := 0;
    while k < |arrays|
      invariant 0 <= k <= |arrays|
      invariant length == offset + Bytes.TotalLength(arrays[..k])
    {
      assert arrays[..k + 1][..k] == arrays[..k];
      length := length + |arrays[k]|;
      k := k + 1;
    }
    assert arrays[..k] == arrays;
    r := ConcatenateSized(offset, length, arrays);
  }

  /** On one array of one byte at offset 4, the result has 9 bytes where 5 are meant. */
  lemma ConcatenateAtPadsTwice()
    ensures |Zeros(4) + Bytes.Flatten([[1]]) + Zeros(4)| == 9
    ensures Zeros(4) + Bytes.Flatten([[1]]) == [0, 0, 0, 0, 1]
  {
    Bytes.FlattenSingle([1]);
  }

  /** The private `concatenate(offset, totalBytes, arrays)`. */
  method ConcatenateSized(offset: int, totalBytes: int, arrays: seq<seq<byte>>) returns (r: Result<array<byte>>)
    requires offset >= 0 ==> Bytes.TotalLength(arrays) <= totalBytes
    ensures offset + totalBytes < 0 ==> r == Err(NegativeArraySize)
    ensures offset + totalBytes >= 0 && offset < 0 ==> r == Err(IndexOutOfBounds)
    ensures offset >= 0 ==> (r.Ok? && fresh(r.value)
      && r.value[..] == Zeros(offset) + Bytes.Flatten(arrays) + Zeros(totalBytes - Bytes.TotalLength(arrays)))
  {
    if offset + totalBytes < 0 {
      return Err(NegativeArraySize);
    }
    var dest := new byte[offset + totalBytes](_ => 0);
    assert dest[..] == Zeros(offset + totalBytes);
    var written := ConcatenateInto(dest, offset, arrays);
    if written.Err? {
      return Err(written.error);
    }
    Bytes.SpliceIntoZeros(offset, Bytes.Flatten(arrays), totalBytes - Bytes.TotalLength(arrays));
    assert dest[..] == Zeros(offset) + Bytes.Flatten(arrays) + Zeros(totalBytes - Bytes.TotalLength(arrays));
    return Ok(dest);
  }

  /** `concatenate(arrays)`: with offset 0 the extra zeros vanish, so this one is right. */
  method Concatenate(arrays: seq<seq<byte>>) returns (r: array<byte>)
    ensures fresh(r) && r[..] == Bytes.Flatten(arrays)
  {
    var c := ConcatenateAt(0, arrays);
    r := c.value;
  }

  /** `serializeCollection`: a four-byte element count, then each element as `ser` serializes it. */
  method SerializeCollection<T>(elements: seq<T>, ser: T -> seq<byte>) returns (r: array<byte>)
    requires |elements| <= INT_MAX
    ensures fresh(r) && r[..] == Bytes.IntBytes(|elements|) + Bytes.Flatten(Bytes.MapSeq(ser, elements))
  {
    var serialized, bytes := Bytes.SerializeEach(elements, ser);
    var finalized := ConcatenateSized(4, bytes, serialized);
    r := finalized.value;
    Bytes.PutInteger(r, 0, |elements|);
    Bytes.CountFilled(|elements|, Bytes.Flatten(serialized));
  }
}
