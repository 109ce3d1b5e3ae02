/**
 * The static helpers of `Bytes`: big-endian reading and writing of Java
 * primitives in byte arrays, splitting and concatenation of arrays, and the
 * length-prefixed collection format.
 *
 * Arrays that a helper only reads are passed by content (`seq<byte>`); arrays
 * it writes are `array<byte>`. Every value in this file has a big-endian
 * reading (`BE`) and every encoder is tied to `Encode`, the n low-order
 * bytes of a value, most significant first.
 */
module Bytes {
  import opened Java

  function Pow256(n: nat): (r: nat)
    ensures r > 0
  {
    if n == 0 then 1 else 0x100 * Pow256(n - 1)
  }

  /** The unsigned big-endian value of a byte string. */
  function BE(s: seq<byte>): (r: int)
    ensures 0 <= r < Pow256(|s|)
  {
    if s == [] then 0 else BE(s[..|s| - 1]) * 0x100 + U8(s[|s| - 1])
  }

  /** The `n` low-order bytes of `u` (two's complement for negative `u`), most significant first. */
  function Encode(u: int, n: nat): (r: seq<byte>)
    ensures |r| == n
    decreases n
  {
    if n == 0 then [] else Encode(u / 0x100, n - 1) + [ToByte(u % 0x100)]
  }

  /** `s` with the bytes at `i .. i + |w|` replaced by `w`. */
  function Splice(s: seq<byte>, i: int, w: seq<byte>): seq<byte>
    requires 0 <= i && i + |w| <= |s|
  {
    s[..i] + w + s[i + |w|..]
  }

  // The big-endian facts everything below rests on.

  lemma Recombine(u: int, p: int)
    requires p > 0
    ensures u / (0x100 * p) == (u / 0x100) / p
    ensures u % (0x100 * p) == ((u / 0x100) % p) * 0x100 + u % 0x100
  {
    var q := (u / 0x100) / p;
    var r := (u / 0x100) % p;
    var b := u % 0x100;
    assert u / 0x100 == p * q + r;
    assert u == 0x100 * (u / 0x100) + b;
    assert u == (0x100 * p) * q + (r * 0x100 + b);
    DivModUnique(u, 0x100 * p, q, r * 0x100 + b);
  }

  /** Decoding an encoding gives the value back, modulo the encoding's range. */
  lemma {:induction false} BEEncode(u: int, n: nat)
    ensures BE(Encode(u, n)) == u % Pow256(n)
    decreases n
  {
    if n > 0 {
      var e := Encode(u, n);
      var b := u % 0x100;
      assert e[..|e| - 1] == Encode(u / 0x100, n - 1);
      BEEncode(u / 0x100, n - 1);
      U8ToByte(b);
      DivModUnique(b, 0x100, 0, b);
      assert BE(e) == ((u / 0x100) % Pow256(n - 1)) * 0x100 + b;
      Recombine(u, Pow256(n - 1));
    }
  }

  /** Encoding a decoded string gives the string back. */
  lemma {:induction false} EncodeBE(s: seq<byte>)
    ensures Encode(BE(s), |s|) == s
    decreases |s|
  {
    if s != [] {
      var init, last := s[..|s| - 1], s[|s| - 1];
      var x := BE(s);
      DivModUnique(x, 0x100, BE(init), U8(last));
      EncodeBE(init);
      ToByteU8(last);
      assert s == init + [last];
    }
  }

  lemma ToByteMod(x: int)
    ensures ToByte(x % 0x100) == ToByte(x)
  {
    WrapShift(x % 0x100, x / 0x100, 0x100);
  }

  /** Byte `j` of an encoding holds bits `8 (n - 1 - j)` and up of the value. */
  lemma {:induction false} EncodeAt(u: int, n: nat, j: nat)
    requires j < n
    ensures Encode(u, n)[j] == ToByte(u / Pow256(n - 1 - j))
    decreases n
  {
    if j == n - 1 {
      ToByteMod(u);
    } else {
      EncodeAt(u / 0x100, n - 1, j);
      Recombine(u, Pow256(n - 2 - j));
    }
  }

  // Getters: pure functions of the array content.

  /** `getUnsignedByte`: the byte read as a value in 0..255. */
  function GetUnsignedByte(a: seq<byte>, index: int): (r: short)
    requires 0 <= index < |a|
    ensures 0 <= r < 0x100 && ToByte(r) == a[index]
  {
    ToByteU8(a[index]);
    U8(a[index])
  }

  lemma BE2(s: seq<byte>)
    requires |s| == 2
    ensures BE(s) == U8(s[0]) * 0x100 + U8(s[1])
  {
    assert s[..1][..0] == [];
  }

  lemma BE4(s: seq<byte>)
    requires |s| == 4
    ensures BE(s) == U8(s[0]) * 0x100_0000 + U8(s[1]) * 0x1_0000 + U8(s[2]) * 0x100 + U8(s[3])
  {
    assert s[..3][..2][..1][..0] == [];
    assert BE(s[..3][..2]) == U8(s[0]) * 0x100 + U8(s[1]);
  }

  /** `getInteger`: four bytes read big-endian into a signed int. */
  function GetInteger(a: seq<byte>, index: int): (r: int32)
    requires 0 <= index && index + 4 <= |a|
    ensures r == ToInt32(BE(a[index..index + 4]))
  {
    BE4(a[index..index + 4]);
    ToInt32(U8(a[index]) * 0x100_0000 + U8(a[index + 1]) * 0x1_0000
      + U8(a[index + 2]) * 0x100 + U8(a[index + 3]))
  }

  /** `getShort`: the first byte sign-extended and shifted, OR the second. */
  function GetShort(a: seq<byte>, index: int): (r: short)
    requires 0 <= index && index + 2 <= |a|
    ensures r == ToShort(BE(a[index..index + 2]))
  {
    BE2(a[index..index + 2]);
    U8Value(a[index]);
    // the low eight bits of `a[index] << 8` are zero, so `|` adds
    WrapShift(a[index] * 0x100 + U8(a[index + 1]), 1, 0x1_0000);
    ToShort(a[index] * 0x100 + U8(a[index + 1]))
  }

  /** `getBoolean`: only the byte 1 reads as true. */
  predicate GetBoolean(a: seq<byte>, index: int)
    requires 0 <= index < |a|
  {
    a[index] == 1
  }

  /** `getStringLength`: the stored length plus its own four bytes, in int arithmetic. */
  function GetStringLength(a: seq<byte>, index: int): (r: int32)
    requires 0 <= index && index + 4 <= |a|
    ensures GetInteger(a, index) <= INT_MAX - 4 ==> r == GetInteger(a, index) + 4
  {
    var length := GetInteger(a, index);
    if length <= INT_MAX - 4 then
      WrapId(length + 4, 0x1_0000_0000);
      ToInt32(length + 4)
    else
      ToInt32(length + 4)
  }

  // What the writers store.

  /** The four bytes `putInteger` stores: `(byte)(value >>> 24)`, … , `(byte)value`. */
  function IntBytes(value: int32): (r: seq<byte>)
    ensures r == Encode(value, 4)
  {
    EncodeAt(value, 4, 0); EncodeAt(value, 4, 1); EncodeAt(value, 4, 2); EncodeAt(value, 4, 3);
    // the bits `(byte)` keeps are the same for `>>>` and `>>` when the shift is at most 24
    [ToByte(value / 0x100_0000), ToByte(value / 0x1_0000), ToByte(value / 0x100), ToByte(value)]
  }

  /** The two bytes `putShort` stores. */
  function ShortBytes(value: short): (r: seq<byte>)
    ensures r == Encode(value, 2)
  {
    EncodeAt(value, 2, 0); EncodeAt(value, 2, 1);
    [ToByte(value / 0x100), ToByte(value)]
  }

  /** The byte `putBoolean` stores. */
  function BooleanByte(b: bool): (r: byte)
    ensures r == 1 || r == 0
  {
    if b then 1 else 0
  }

  /** Reading back what was written gives the int, whatever the surrounding bytes. */
  lemma IntegerRoundTrip(a: seq<byte>, index: int, value: int32)
    requires 0 <= index && index + 4 <= |a|
    ensures GetInteger(Splice(a, index, IntBytes(value)), index) == value
  {
    var s := Splice(a, index, IntBytes(value));
    assert s[index..index + 4] == Encode(value, 4);
    BEEncode(value, 4);
    assert Pow256(4) == 0x1_0000_0000;
    WrapModId(value, 0x1_0000_0000);
  }

  /** Writing what was read leaves the four bytes as they were. */
  lemma IntegerEncodeDecode(a: seq<byte>, index: int)
    requires 0 <= index && index + 4 <= |a|
    ensures IntBytes(GetInteger(a, index)) == a[index..index + 4]
  {
    var s := a[index..index + 4];
    var v := GetInteger(a, index);
    WrapMod(BE(s), 0x1_0000_0000);
    EncodeFromMod(v, BE(s), 4);
    EncodeBE(s);
  }

  /** Encodings only depend on the value modulo their range. */
  lemma {:induction false} EncodeFromMod(x: int, y: int, n: nat)
    requires x % Pow256(n) == y % Pow256(n)
    ensures Encode(x, n) == Encode(y, n)
    decreases n
  {
    if n > 0 {
      Recombine(x, Pow256(n - 1));
      Recombine(y, Pow256(n - 1));
      var bx, bY := x % 0x100, y % 0x100;
      var rx, ry := (x / 0x100) % Pow256(n - 1), (y / 0x100) % Pow256(n - 1);
      assert rx * 0x100 + bx == ry * 0x100 + bY;
      DivModUnique(rx * 0x100 + bx, 0x100, rx, bx);
      DivModUnique(ry * 0x100 + bY, 0x100, ry, bY);
      EncodeFromMod(x / 0x100, y / 0x100, n - 1);
    }
  }

  lemma ShortRoundTrip(a: seq<byte>, index: int, value: short)
    requires 0 <= index && index + 2 <= |a|
    ensures GetShort(Splice(a, index, ShortBytes(value)), index) == value
  {
    var s := Splice(a, index, ShortBytes(value));
    assert s[index..index + 2] == Encode(value, 2);
    BEEncode(value, 2);
    assert Pow256(2) == 0x1_0000;
    WrapModId(value, 0x1_0000);
  }

  lemma ShortEncodeDecode(a: seq<byte>, index: int)
    requires 0 <= index && index + 2 <= |a|
    ensures ShortBytes(GetShort(a, index)) == a[index..index + 2]
  {
    var s := a[index..index + 2];
    WrapMod(BE(s), 0x1_0000);
    EncodeFromMod(GetShort(a, index), BE(s), 2);
    EncodeBE(s);
  }

  lemma BooleanRoundTrip(a: seq<byte>, index: int, b: bool)
    requires 0 <= index < |a|
    ensures GetBoolean(Splice(a, index, [BooleanByte(b)]), index) == b
  {
    assert Splice(a, index, [BooleanByte(b)])[index] == BooleanByte(b);
  }

  /** The value `getLong` computes from eight bytes. */
  function LongValue(s: seq<byte>): long
  {
    ToLong(BE(s))
  }

  lemma LongRoundTrip(value: long)
    ensures LongValue(Encode(value, 8)) == value
  {
    BEEncode(value, 8);
    assert Pow256(8) == 0x1_0000_0000_0000_0000;
    WrapModId(value, 0x1_0000_0000_0000_0000);
  }

  // Writers: they change the given bytes and nothing else.

  method PutInteger(a: array<byte>, index: int, value: int32)
    requires 0 <= index && index + 4 <= a.Length
    modifies a
    ensures a[..] == Splice(old(a[..]), index, IntBytes(value))
  {
    a[index + 0] := ToByte(value / 0x100_0000);
    a[index + 1] := ToByte(value / 0x1_0000);
    a[index + 2] := ToByte(value / 0x100);
    a[index + 3] := ToByte(value);
  }

  method PutShort(a: array<byte>, index: int, value: short)
    requires 0 <= index && index + 2 <= a.Length
    modifies a
    ensures a[..] == Splice(old(a[..]), index, ShortBytes(value))
  {
    a[index + 0] := ToByte(value / 0x100);
    a[index + 1] := ToByte(value);
  }

  method PutBoolean(a: array<byte>, index: int, b: bool)
    requires 0 <= index < a.Length
    modifies a
    ensures a[..] == Splice(old(a[..]), index, [BooleanByte(b)])
  {
    a[index] := BooleanByte(b);
  }

  /** `putLong`: the low byte goes last, then the value is shifted right by eight, eight times. */
  method PutLong(a: array<byte>, index: int, value: long)
    requires 0 <= index && index + 8 <= a.Length
    modifies a
    ensures a[..] == Splice(old(a[..]), index, Encode(value, 8))
  {
    var v: int := value;
    var i := 7;
    while i >= 0
      invariant -1 <= i <= 7
      invariant v == value / Pow256(7 - i)
      invariant a[..] == old(a[..])[..index + i + 1] + Encode(value, 7 - i) + old(a[..])[index + 8..]
    {
      PutLongStep(value, 7 - i, v);
      ghost var before := a[..];
      a[index + i] := ToByte(v % 0x100);
      assert a[..] == before[index + i := ToByte(v % 0x100)];
      StoreBefore(old(a[..]), before, index, i, ToByte(v % 0x100), Encode(value, 7 - i));
      v := v / 0x100;
      i := i - 1;
    }
  }

  /** Storing `b` just before the bytes already written extends them by one, at the front. */
  lemma StoreBefore(s: seq<byte>, before: seq<byte>, index: int, i: int, b: byte, written: seq<byte>)
    requires 0 <= index && 0 <= i && index + 8 <= |s| && |written| == 7 - i
    requires before == s[..index + i + 1] + written + s[index + 8..]
    ensures before[index + i := b] == s[..index + i] + ([b] + written) + s[index + 8..]
  {
    assert before[..index + i] == s[..index + i];
    assert before[index + i + 1..] == written + s[index + 8..];
  }

  lemma PutLongStep(value: int, k: nat, v: int)
    requires v == value / Pow256(k)
    ensures Encode(value, k + 1) == [ToByte(v % 0x100)] + Encode(value, k)
    ensures v / 0x100 == value / Pow256(k + 1)
  {
    EncodeShift(value, k);
    DivDiv(value, Pow256(k));
  }

  lemma MulMono(p: int, t: int, c: int)
    requires p > 0 && t <= c
    ensures p * t <= p * c
  {
  }

  lemma DivDiv(u: int, p: int)
    requires p > 0
    ensures (u / p) / 0x100 == u / (0x100 * p)
  {
    var q := (u / p) / 0x100;
    var t := (u / p) % 0x100;
    assert u == p * (u / p) + u % p;
    assert u / p == 0x100 * q + t;
    assert u == (0x100 * p) * q + (p * t + u % p);
    MulMono(p, t, 0xFF);
    DivModUnique(u, 0x100 * p, q, p * t + u % p);
  }

  /** Prepending the next byte up extends an encoding by one. */
  lemma {:induction false} EncodeShift(u: int, n: nat)
    ensures Encode(u, n + 1) == [ToByte((u / Pow256(n)) % 0x100)] + Encode(u, n)
    decreases n
  {
    if n > 0 {
      EncodeShift(u / 0x100, n - 1);
      Recombine(u, Pow256(n - 1));
    }
  }

  /** `getLong`: eight bytes shifted in one at a time in long arithmetic. */
  method GetLong(a: seq<byte>, index: int) returns (value: long)
    requires 0 <= index && index + 8 <= |a|
    ensures value == LongValue(a[index..index + 8])
  {
    value := 0;
    var i := 0;
    while i < 8
      invariant 0 <= i <= 8
      invariant value == ToLong(BE(a[index..index + i]))
    {
      var u := U8(a[index + i]);
      assert a[index..index + i + 1][..i] == a[index..index + i];
      WrapMulAdd(value * 0x100, 1, u, 0x1_0000_0000_0000_0000);
      WrapMulAdd(BE(a[index..index + i]), 0x100, u, 0x1_0000_0000_0000_0000);
      value := ToLong(ToLong(value * 0x100) + u);
      i := i + 1;
    }
  }

  /** `of(short)`, `of(int)`, `of(long)`: a fresh array holding the encoding. */
  method OfShort(value: short) returns (r: array<byte>)
    ensures fresh(r) && r[..] == ShortBytes(value)
  {
    r := new byte[2](_ => 0);
    PutShort(r, 0, value);
  }

  method OfInt(value: int32) returns (r: array<byte>)
    ensures fresh(r) && r[..] == IntBytes(value)
  {
    r := new byte[4](_ => 0);
    PutInteger(r, 0, value);
  }

  method OfLong(value: long) returns (r: array<byte>)
    ensures fresh(r) && r[..] == Encode(value, 8)
  {
    r := new byte[8](_ => 0);
    PutLong(r, 0, value);
  }

  /** `putBytesWithLength`: a four-byte length, then the bytes; returns how many bytes it wrote. */
  method PutBytesWithLength(a: array<byte>, index: int, bytes: seq<byte>) returns (written: int)
    requires 0 <= index && index + 4 + |bytes| <= a.Length <= INT_MAX
    modifies a
    ensures written == |bytes| + 4
    ensures a[..] == Splice(old(a[..]), index, IntBytes(|bytes|) + bytes)
  {
    ghost var s := a[..];
    PutInteger(a, index, |bytes|);
    var _ := Copy(bytes, a, index + 4);
    SpliceAppend(s, index, IntBytes(|bytes|), bytes);
    written := |bytes| + 4;
  }

  /** The length `putBytesWithLength` stores is read back by `getStringLength` with the header counted. */
  lemma StringLengthRoundTrip(a: seq<byte>, index: int, bytes: seq<byte>)
    requires 0 <= index && index + 4 + |bytes| <= |a| <= INT_MAX
    ensures GetStringLength(Splice(a, index, IntBytes(|bytes|) + bytes), index) == |bytes| + 4
  {
    var s := Splice(a, index, IntBytes(|bytes|) + bytes);
    assert s[index..index + 4] == IntBytes(|bytes|);
    assert Splice(s, index, IntBytes(|bytes|)) == s;
    IntegerRoundTrip(s, index, |bytes|);
  }

  // Array copies: `System.arraycopy` checks its bounds before it writes anything.

  /** `copy`: the source placed at `offset`, every other destination byte unchanged. */
  method Copy(source: seq<byte>, destination: array<byte>, offset: int) returns (r: Result<()>)
    modifies destination
    ensures 0 <= offset && offset + |source| <= destination.Length
      ==> r == Ok(()) && destination[..] == Splice(old(destination[..]), offset, source)
    ensures !(0 <= offset && offset + |source| <= destination.Length)
      ==> r == Err(IndexOutOfBounds) && destination[..] == old(destination[..])
  {
    if !(0 <= offset && offset + |source| <= destination.Length) {
      return Err(IndexOutOfBounds);
    }
    var k := 0;
    while k < |source|
      invariant 0 <= k <= |source|
      invariant destination[..] == old(destination[..offset]) + source[..k] + old(destination[offset + k..])
    {
      ghost var before := destination[..];
      destination[offset + k] := source[k];
      assert destination[..] == before[offset + k := source[k]];
      CopyStep(old(destination[..]), before, source, offset, k);
      k := k + 1;
    }
    return Ok(());
  }

  /** One more byte of `source` copied at `offset + k`. */
  lemma CopyStep(s: seq<byte>, before: seq<byte>, source: seq<byte>, offset: int, k: int)
    requires 0 <= offset && 0 <= k < |source| && offset + |source| <= |s|
    requires before == s[..offset] + source[..k] + s[offset + k..]
    ensures before[offset + k := source[k]] == s[..offset] + source[..k + 1] + s[offset + k + 1..]
  {
  }

  /** `subArray`: a fresh copy of `length` bytes starting at `offset`. */
  method SubArray(source: seq<byte>, offset: int, length: int) returns (r: Result<array<byte>>)
    ensures length < 0 ==> r == Err(NegativeArraySize)
    ensures length >= 0 && 0 <= offset && offset + length <= |source|
      ==> r.Ok? && fresh(r.value) && r.value[..] == source[offset..offset + length]
    ensures length >= 0 && !(0 <= offset && offset + length <= |source|) ==> r == Err(IndexOutOfBounds)
  {
    if length < 0 {
      return Err(NegativeArraySize);
    }
    var sub := new byte[length](_ => 0);
    if !(0 <= offset && offset + length <= |source|) {
      return Err(IndexOutOfBounds);
    }
    var k := 0;
    while k < length
      invariant 0 <= k <= length
      invariant sub[..k] == source[offset..offset + k]
    {
      sub[k] := source[offset + k];
      k := k + 1;
    }
    assert sub[..] == sub[..length];
    return Ok(sub);
  }

  /** `expand`: a fresh array holding the source followed by `extraLength` zero bytes. */
  method Expand(source: seq<byte>, extraLength: int) returns (r: Result<array<byte>>)
    ensures extraLength >= 0 ==> r.Ok? && fresh(r.value) && r.value[..] == source + Zeros(extraLength)
    ensures -|source| <= extraLength < 0 ==> r == Err(IndexOutOfBounds)
    ensures extraLength < -|source| ==> r == Err(NegativeArraySize)
  {
    if |source| + extraLength < 0 {
      return Err(NegativeArraySize);
    }
    var copy := new byte[|source| + extraLength](_ => 0);
    var c := Copy(source, copy, 0);
    if c.Err? {
      return Err(c.error);
    }
    return Ok(copy);
  }

  // Concatenation.

  /** The arrays one after another. */
  function Flatten(arrays: seq<seq<byte>>): (r: seq<byte>)
    ensures |r| == TotalLength(arrays)
  {
    if arrays == [] then [] else Flatten(arrays[..|arrays| - 1]) + arrays[|arrays| - 1]
  }

  function TotalLength(arrays: seq<seq<byte>>): nat
  {
    if arrays == [] then 0 else TotalLength(arrays[..|arrays| - 1]) + |arrays[|arrays| - 1]|
  }

  /** Every array without its first `headerSize` bytes. */
  function StripHeaders(arrays: seq<seq<byte>>, headerSize: nat): (r: seq<seq<byte>>)
    requires forall k :: 0 <= k < |arrays| ==> headerSize <= |arrays[k]|
    ensures |r| == |arrays|
    ensures forall k :: 0 <= k < |arrays| ==> r[k] == arrays[k][headerSize..]
  {
    seq(|arrays|, k requires 0 <= k < |arrays| => arrays[k][headerSize..])
  }

  predicate HeadersFit(arrays: seq<seq<byte>>, headerSize: int)
  {
    forall k :: 0 <= k < |arrays| ==> headerSize <= |arrays[k]|
  }

  /**
   * `concatenate(destination, offset, headerSize, arrays)`: the arrays, headers
   * stripped, written one after another from `offset`; returns the number of
   * bytes written. Callers must supply arrays at least `headerSize` long and a
   * destination with room for them.
   */
  method ConcatenateInto(destination: array<byte>, offset: int, headerSize: int, arrays: seq<seq<byte>>)
    returns (r: Result<int>)
    requires offset >= 0 && headerSize >= 0 ==>
      HeadersFit(arrays, headerSize)
      && offset + |Flatten(StripHeaders(arrays, headerSize))| <= destination.Length
    modifies destination
    ensures offset < 0 || headerSize < 0 ==> r == Err(IndexOutOfBounds) && destination[..] == old(destination[..])
    ensures offset >= 0 && headerSize >= 0 ==>
      var data := Flatten(StripHeaders(arrays, headerSize));
      r == Ok(|data|) && destination[..] == Splice(old(destination[..]), offset, data)
  {
    if offset < 0 {
      return Err(IndexOutOfBounds);
    }
    if headerSize < 0 {
      return Err(IndexOutOfBounds);
    }
    var stripped := StripHeaders(arrays, headerSize);
    assert stripped[0..] == stripped;
    var index := offset;
    var k := 0;
    while k < |arrays|
      invariant 0 <= k <= |arrays|
      invariant index == offset + |Flatten(stripped[..k])|
      invariant index + |Flatten(stripped[k..])| <= destination.Length
      invariant destination[..] == Splice(old(destination[..]), offset, Flatten(stripped[..k]))
    {
      var length := |arrays[k]| - headerSize;
      CopyNext(destination, old(destination[..]), offset, stripped, k, index);
      index := index + length;
      k := k + 1;
    }
    assert stripped[..k] == stripped;
    return Ok(index - offset);
  }

  /**
   * One pass of the concatenation loops: array `k` copied to where the
   * arrays before it end.
   */
  method CopyNext(destination: array<byte>, ghost s: seq<byte>, offset: nat, arrays: seq<seq<byte>>, k: nat, index: int)
    requires k < |arrays| && |s| == destination.Length
    requires index == offset + |Flatten(arrays[..k])| && index + |Flatten(arrays[k..])| <= destination.Length
    requires destination[..] == Splice(s, offset, Flatten(arrays[..k]))
    modifies destination
    ensures index + |arrays[k]| == offset + |Flatten(arrays[..k + 1])|
    ensures index + |arrays[k]| + |Flatten(arrays[k + 1..])| <= destination.Length
    ensures destination[..] == Splice(s, offset, Flatten(arrays[..k + 1]))
  {
    ConcatenateStep(s, offset, arrays, k);
    var _ := Copy(arrays[k], destination, index);
  }

  lemma ConcatenateStep(s: seq<byte>, offset: nat, arrays: seq<seq<byte>>, k: nat)
    requires k < |arrays|
    requires offset + |Flatten(arrays[..k])| + |Flatten(arrays[k..])| <= |s|
    ensures |Flatten(arrays[..k + 1])| == |Flatten(arrays[..k])| + |arrays[k]|
    ensures |Flatten(arrays[k..])| == |arrays[k]| + |Flatten(arrays[k + 1..])|
    ensures Splice(Splice(s, offset, Flatten(arrays[..k])), offset + |Flatten(arrays[..k])|, arrays[k])
      == Splice(s, offset, Flatten(arrays[..k + 1]))
  {
    assert arrays[..k + 1] == arrays[..k] + [arrays[k]];
    FlattenAppend(arrays[..k], [arrays[k]]);
    assert arrays[k..] == [arrays[k]] + arrays[k + 1..];
    FlattenAppend([arrays[k]], arrays[k + 1..]);
    FlattenSingle(arrays[k]);
    SpliceAppend(s, offset, Flatten(arrays[..k]), arrays[k]);
  }

  /** Writing `w` and then `x` right after it is writing `w + x`. */
  lemma SpliceAppend(s: seq<byte>, i: int, w: seq<byte>, x: seq<byte>)
    requires 0 <= i && i + |w| + |x| <= |s|
    ensures Splice(Splice(s, i, w), i + |w|, x) == Splice(s, i, w + x)
  {
    var t := Splice(s, i, w);
    assert t[..i + |w|] == s[..i] + w;
    assert t[i + |w| + |x|..] == s[i + |w| + |x|..];
  }

  /** Writing `w` at `offset` into zero bytes leaves zeros on both sides of it. */
  lemma SpliceIntoZeros(offset: nat, w: seq<byte>, extra: nat)
    ensures Splice(Zeros(offset + |w| + extra), offset, w) == Zeros(offset) + w + Zeros(extra)
  {
    var z := Zeros(offset + |w| + extra);
    assert z[..offset] == Zeros(offset);
    assert z[offset + |w|..] == Zeros(extra);
  }

  /** Writing `w` over as many leading zero bytes leaves `w` in front of what followed them. */
  lemma OverZeros(w: seq<byte>, t: seq<byte>)
    ensures Splice(Zeros(|w|) + t, 0, w) == w + t
  {
    assert (Zeros(|w|) + t)[|w|..] == t;
  }

  lemma FlattenSingle(a: seq<byte>)
    ensures Flatten([a]) == a
  {
    var s: seq<seq<byte>> := [a];
    assert s[..0] == [];
  }

  /** Flattening distributes over concatenation. */
  lemma {:induction false} FlattenAppend(a: seq<seq<byte>>, b: seq<seq<byte>>)
    ensures Flatten(a + b) == Flatten(a) + Flatten(b)
    decreases |b|
  {
    if b == [] {
      assert a + b == a;
    } else {
      var init := b[..|b| - 1];
      assert (a + b)[..|a + b| - 1] == a + init;
      FlattenAppend(a, init);
    }
  }

  /**
   * `concatenate(offset, arrays)`: a fresh array of `offset` zero bytes followed
   * by the arrays.
   */
  method ConcatenateAt(offset: int, arrays: seq<seq<byte>>) returns (r: Result<array<byte>>)
    ensures offset >= 0 ==> r.Ok? && fresh(r.value) && r.value[..] == Zeros(offset) + Flatten(arrays)
    ensures offset < 0 <= offset + TotalLength(arrays) ==> r == Err(IndexOutOfBounds)
    ensures offset + TotalLength(arrays) < 0 ==> r == Err(NegativeArraySize)
  {
    var length := 0;
    var k := 0;
    while k < |arrays|
      invariant 0 <= k <= |arrays|
      invariant length == TotalLength(arrays[..k])
    {
      assert arrays[..k + 1][..k] == arrays[..k];
      length := length + |arrays[k]|;
      k := k + 1;
    }
    assert arrays[..k] == arrays;
    r := ConcatenateSized(offset, length, arrays);
  }

  /** The private `concatenate(offset, totalBytes, arrays)`: the caller supplies the total. */
  method ConcatenateSized(offset: int, totalBytes: int, arrays: seq<seq<byte>>) returns (r: Result<array<byte>>)
    requires offset >= 0 ==> TotalLength(arrays) <= totalBytes
    ensures offset + totalBytes < 0 ==> r == Err(NegativeArraySize)
    ensures offset + totalBytes >= 0 && offset < 0 ==> r == Err(IndexOutOfBounds)
    ensures offset >= 0 ==> (r.Ok? && fresh(r.value)
      && r.value[..] == Zeros(offset) + Flatten(arrays) + Zeros(totalBytes - TotalLength(arrays)))
  {
    if offset + totalBytes < 0 {
      return Err(NegativeArraySize);
    }
    var dest := new byte[offset + totalBytes](_ => 0);
    assert dest[..] == Zeros(offset + totalBytes);
    NoHeaders(arrays);
    var written := ConcatenateInto(dest, offset, 0, arrays);
    if written.Err? {
      return Err(written.error);
    }
    SpliceIntoZeros(offset, Flatten(arrays), totalBytes - TotalLength(arrays));
    assert dest[..] == Zeros(offset) + Flatten(arrays) + Zeros(totalBytes - TotalLength(arrays));
    return Ok(dest);
  }

  lemma NoHeaders(arrays: seq<seq<byte>>)
    ensures HeadersFit(arrays, 0) && StripHeaders(arrays, 0) == arrays
  {
    var s := StripHeaders(arrays, 0);
    forall k | 0 <= k < |arrays| ensures s[k] == arrays[k] {
      assert arrays[k][0..] == arrays[k];
    }
  }

  /** `concatenate(arrays)`: a fresh array holding the arrays one after another. */
  method Concatenate(arrays: seq<seq<byte>>) returns (r: array<byte>)
    ensures fresh(r) && r[..] == Flatten(arrays)
  {
    var c := ConcatenateAt(0, arrays);
    r := c.value;
  }

  // The collection format: element count, then the serialized elements.

  function MapSeq<T>(f: T -> seq<byte>, elements: seq<T>): (r: seq<seq<byte>>)
    ensures |r| == |elements| && forall k :: 0 <= k < |elements| ==> r[k] == f(elements[k])
  {
    seq(|elements|, k requires 0 <= k < |elements| => f(elements[k]))
  }

  /**
   * `serializeCollection`: a four-byte count, then each element as `ser`
   * serializes it, in iteration order. `ser` stands for the serializer
   * object the source passes in.
   */
  method SerializeCollection<T>(elements: seq<T>, ser: T -> seq<byte>) returns (r: array<byte>)
    requires |elements| <= INT_MAX
    ensures fresh(r) && r[..] == IntBytes(|elements|) + Flatten(MapSeq(ser, elements))
  {
    var serialized, bytes := SerializeEach(elements, ser);
    var finalized := ConcatenateSized(4, bytes, serialized);
    r := finalized.value;
    PutInteger(r, 0, |elements|);
    CountFilled(|elements|, Flatten(serialized));
  }

  /** The loop of `serializeCollection`: each element serialized, and the total of their lengths. */
  method SerializeEach<T>(elements: seq<T>, ser: T -> seq<byte>) returns (serialized: seq<seq<byte>>, bytes: int)
    ensures serialized == MapSeq(ser, elements) && bytes == TotalLength(serialized)
  {
    serialized := [];
    bytes := 0;
    var index := 0;
    while index < |elements|
      invariant 0 <= index <= |elements|
      invariant serialized == MapSeq(ser, elements[..index])
      invariant bytes == TotalLength(serialized)
    {
      var s := ser(elements[index]);
      assert serialized + [s] == MapSeq(ser, elements[..index + 1]);
      assert (serialized + [s])[..|serialized|] == serialized;
      serialized := serialized + [s];
      bytes := bytes + |s|;
      index := index + 1;
    }
    assert elements[..index] == elements;
  }

  /** The count written over the four zero bytes in front of the elements. */
  lemma CountFilled(count: int32, body: seq<byte>)
    ensures Splice(Zeros(4) + body + Zeros(0), 0, IntBytes(count)) == IntBytes(count) + body
  {
    assert body + Zeros(0) == body;
    OverZeros(IntBytes(count), body);
  }

  // Splitting an array into packets.

  function Min(a: int, b: int): int { if a < b then a else b }

  /** `source.length / length`, plus one for a partial last piece: how many pieces `split` cuts. */
  function ArrayCount(n: nat, length: int): (r: nat)
    requires length > 0
    ensures r * length >= n && (r == 0 || (r - 1) * length < n)
  {
    var q := n / length;
    assert n == length * q + n % length;
    if n % length > 0 then q + 1 else q
  }

  /** Source bytes `j * length ..` of piece `j`: `length` of them, fewer for the last piece. */
  function Piece(source: seq<byte>, length: int, j: nat): (r: seq<byte>)
    requires length > 0 && j < ArrayCount(|source|, length)
    ensures 0 < |r| <= length
  {
    PieceStart(|source|, length, j);
    source[j * length..Min((j + 1) * length, |source|)]
  }

  /** Piece `j` as a packet: `padding` zero bytes, then the piece. */
  function Packet(source: seq<byte>, length: int, padding: nat, j: nat): seq<byte>
    requires length > 0 && j < ArrayCount(|source|, length)
  {
    Zeros(padding) + Piece(source, length, j)
  }

  /**
   * The slots `split` fills as written: slot `k` gets piece `k - extraArrays`
   * only while `k` does not exceed the piece count.
   */
  function SplitSlots(source: seq<byte>, length: int, padding: nat, extraArrays: nat): (r: seq<Option<seq<byte>>>)
    requires length > 0
    ensures |r| == extraArrays + ArrayCount(|source|, length)
  {
    var count := ArrayCount(|source|, length);
    seq(extraArrays + count, k requires 0 <= k < extraArrays + count =>
      if extraArrays <= k <= count then Some(Packet(source, length, padding, k - extraArrays)) else None)
  }

  /** The slots `split`'s documentation describes: `extraArrays` empty slots, then every piece. */
  function IntendedSplitSlots(source: seq<byte>, length: int, padding: nat, extraArrays: nat): (r: seq<Option<seq<byte>>>)
    requires length > 0
    ensures |r| == extraArrays + ArrayCount(|source|, length)
  {
    var count := ArrayCount(|source|, length);
    seq(extraArrays + count, k requires 0 <= k < extraArrays + count =>
      if extraArrays <= k then Some(Packet(source, length, padding, k - extraArrays)) else None)
  }

  /**
   * `split`: cuts the source into packets of at most `length` bytes, each
   * preceded by `padding` zero bytes, after `extraArrays` empty slots. The loop
   * runs while its counter is at most the piece count, so with no extra slot
   * the last store is out of bounds.
   */
  method Split(source: seq<byte>, length: int, padding: int, extraArrays: int)
    returns (r: Result<seq<Option<seq<byte>>>>)
    requires length > 0 && padding >= 0 && extraArrays >= 0
    ensures extraArrays == 0 ==> r == Err(IndexOutOfBounds)
    ensures extraArrays > 0 ==> r == Ok(SplitSlots(source, length, padding, extraArrays))
  {
    var count := ArrayCount(|source|, length);
    var dest := new Option<seq<byte>>[extraArrays + count](_ => None);
    var i := extraArrays;
    var pos := 0;
    assert dest[..] == Filled(source, length, padding, extraArrays, i);
    while i <= count
      invariant extraArrays <= i <= dest.Length
      invariant i <= count + 1 || i == extraArrays
      invariant pos == PiecesEnd(|source|, length, i - extraArrays)
      invariant dest[..] == Filled(source, length, padding, extraArrays, i)
    {
      var remaining := |source| - pos;
      var dataSize := Min(length, remaining);
      PacketAt(source, length, padding, i - extraArrays, pos);
      var packet := Zeros(padding) + source[pos..pos + dataSize];
      if i >= dest.Length {
        return Err(IndexOutOfBounds);
      }
      FilledStep(source, length, padding, extraArrays, i);
      dest[i] := Some(packet);
      pos := pos + dataSize;
      i := i + 1;
    }
    if extraArrays == 0 {
      assert false;
    }
    FilledDone(source, length, padding, extraArrays, i);
    return Ok(dest[..]);
  }

  /** The slots after `split`'s loop has filled those below `i`. */
  function Filled(source: seq<byte>, length: int, padding: nat, extraArrays: nat, i: nat): (r: seq<Option<seq<byte>>>)
    requires length > 0 && i <= extraArrays + ArrayCount(|source|, length)
    ensures |r| == extraArrays + ArrayCount(|source|, length)
  {
    var count := ArrayCount(|source|, length);
    seq(extraArrays + count, k requires 0 <= k < extraArrays + count =>
      if extraArrays <= k < i then Some(Packet(source, length, padding, k - extraArrays)) else None)
  }

  lemma FilledDone(source: seq<byte>, length: int, padding: nat, extraArrays: nat, i: nat)
    requires length > 0 && extraArrays <= i <= extraArrays + ArrayCount(|source|, length)
    requires i == ArrayCount(|source|, length) + 1 || i == extraArrays > ArrayCount(|source|, length)
    ensures Filled(source, length, padding, extraArrays, i) == SplitSlots(source, length, padding, extraArrays)
  {
  }

  lemma FilledStep(source: seq<byte>, length: int, padding: nat, extraArrays: nat, i: nat)
    requires length > 0 && extraArrays <= i < extraArrays + ArrayCount(|source|, length)
    ensures Filled(source, length, padding, extraArrays, i)[i := Some(Packet(source, length, padding, i - extraArrays))]
      == Filled(source, length, padding, extraArrays, i + 1)
  {
  }

  /** `split` with the loop bound its documentation implies: every piece gets a slot. */
  method SplitIntended(source: seq<byte>, length: int, padding: int, extraArrays: int)
    returns (r: seq<Option<seq<byte>>>)
    requires length > 0 && padding >= 0 && extraArrays >= 0
    ensures r == IntendedSplitSlots(source, length, padding, extraArrays)
  {
    var count := ArrayCount(|source|, length);
    var dest := new Option<seq<byte>>[extraArrays + count](_ => None);
    var i := extraArrays;
    var pos := 0;
    while i < extraArrays + count
      invariant extraArrays <= i <= extraArrays + count
      invariant pos == PiecesEnd(|source|, length, i - extraArrays)
      invariant forall k :: 0 <= k < dest.Length ==>
        dest[k] == if extraArrays <= k < i then Some(Packet(source, length, padding, k - extraArrays)) else None
    {
      var remaining := |source| - pos;
      var dataSize := Min(length, remaining);
      PacketAt(source, length, padding, i - extraArrays, pos);
      var packet := Zeros(padding) + source[pos..pos + dataSize];
      dest[i] := Some(packet);
      pos := pos + dataSize;
      i := i + 1;
    }
    return dest[..];
  }

  /** Piece `j` starts inside the source, one `length` after piece `j - 1`. */
  lemma PieceStart(n: nat, length: int, j: nat)
    requires length > 0 && j < ArrayCount(n, length)
    ensures j * length < n && (j + 1) * length == j * length + length
  {
    var count := ArrayCount(n, length);
    MulMono(length, j, count - 1);
  }

  /**
   * What one pass of `split`'s loop builds from `pos` is packet `j`, and `pos`
   * moves to where piece `j` ends (it stays at the end past the last piece).
   */
  lemma PacketAt(source: seq<byte>, length: int, padding: nat, j: nat, pos: int)
    requires length > 0 && pos == PiecesEnd(|source|, length, j)
    ensures pos + Min(length, |source| - pos) == PiecesEnd(|source|, length, j + 1)
    ensures j < ArrayCount(|source|, length) ==>
      Zeros(padding) + source[pos..pos + Min(length, |source| - pos)] == Packet(source, length, padding, j)
  {
    var count := ArrayCount(|source|, length);
    if j < count {
      PieceStart(|source|, length, j);
    } else {
      MulMono(length, count, j);
      MulMono(length, count, j + 1);
    }
  }

  /** The data of a packet slot: what follows its padding. */
  function Payload(slot: Option<seq<byte>>, padding: nat): seq<byte>
  {
    if slot.Some? && padding <= |slot.value| then slot.value[padding..] else []
  }

  /** Pieces `0 .. c - 1`. */
  function FirstPieces(source: seq<byte>, length: int, c: nat): (r: seq<seq<byte>>)
    requires length > 0 && c <= ArrayCount(|source|, length)
    ensures |r| == c
  {
    seq(c, j requires 0 <= j < c => Piece(source, length, j))
  }

  /** Where the first `c` pieces end in the source. */
  function PiecesEnd(n: nat, length: int, c: nat): (r: nat)
    requires length > 0
    ensures r <= n
  {
    if c * length < n then c * length else n
  }

  /** The pieces, in order, are the source. */
  lemma {:induction false} PiecesCover(source: seq<byte>, length: int, c: nat)
    requires length > 0 && c <= ArrayCount(|source|, length)
    ensures Flatten(FirstPieces(source, length, c)) == source[..PiecesEnd(|source|, length, c)]
  {
    if c > 0 {
      PiecesCover(source, length, c - 1);
      PieceLast(source, length, c);
      CoverStep(source, FirstPieces(source, length, c), FirstPieces(source, length, c - 1),
        PiecesEnd(|source|, length, c - 1), PiecesEnd(|source|, length, c));
    }
  }

  /** Piece `c - 1` runs from where the first `c - 1` pieces end to where the first `c` end. */
  lemma PieceLast(source: seq<byte>, length: int, c: nat)
    requires length > 0 && 0 < c <= ArrayCount(|source|, length)
    ensures PiecesEnd(|source|, length, c - 1) <= PiecesEnd(|source|, length, c)
    ensures FirstPieces(source, length, c)[c - 1]
      == source[PiecesEnd(|source|, length, c - 1)..PiecesEnd(|source|, length, c)]
    ensures FirstPieces(source, length, c)[..c - 1] == FirstPieces(source, length, c - 1)
  {
    PieceStart(|source|, length, c - 1);
  }

  /** One more slice after a prefix makes a longer prefix. */
  lemma CoverStep(source: seq<byte>, pieces: seq<seq<byte>>, init: seq<seq<byte>>, a: int, b: int)
    requires 0 <= a <= b <= |source| && |pieces| > 0
    requires pieces[..|pieces| - 1] == init && Flatten(init) == source[..a]
    requires pieces[|pieces| - 1] == source[a..b]
    ensures Flatten(pieces) == source[..b]
  {
    SliceJoin(source, a, b);
  }

  lemma SliceJoin(s: seq<byte>, a: int, b: int)
    requires 0 <= a <= b <= |s|
    ensures s[..a] + s[a..b] == s[..b]
  {
  }

  /** With one extra slot, the only way the source calls `split`, the loop bound is right. */
  lemma SplitOneExtra(source: seq<byte>, length: int, padding: nat)
    requires length > 0
    ensures SplitSlots(source, length, padding, 1) == IntendedSplitSlots(source, length, padding, 1)
  {
  }

  /**
   * What `split` promises: `extraArrays` empty slots, then every piece as a
   * packet of `padding` zero bytes and at most `length` data bytes, the data
   * spelling out the source in order.
   */
  lemma IntendedSplitShape(source: seq<byte>, length: int, padding: nat, extraArrays: nat)
    requires length > 0
    ensures var slots := IntendedSplitSlots(source, length, padding, extraArrays);
      && |slots| == extraArrays + ArrayCount(|source|, length)
      && (forall k :: 0 <= k < extraArrays ==> slots[k] == None)
      && (forall k :: extraArrays <= k < |slots| ==>
            (slots[k].Some? && padding < |slots[k].value| <= padding + length
             && slots[k].value[..padding] == Zeros(padding)))
  {
    var slots := IntendedSplitSlots(source, length, padding, extraArrays);
    forall k | extraArrays <= k < |slots|
      ensures slots[k].Some? && padding < |slots[k].value| <= padding + length
      ensures slots[k].value[..padding] == Zeros(padding)
    {
      PacketParts(source, length, padding, k - extraArrays);
    }
  }

  lemma PacketParts(source: seq<byte>, length: int, padding: nat, j: nat)
    requires length > 0 && j < ArrayCount(|source|, length)
    ensures var p := Packet(source, length, padding, j);
      padding < |p| <= padding + length && p[..padding] == Zeros(padding)
      && p[padding..] == Piece(source, length, j)
  {
    var p := Packet(source, length, padding, j);
    assert p[..padding] == Zeros(padding);
    assert p[padding..] == Piece(source, length, j);
  }

  /** The data of slots `extraArrays ..`, in order. */
  function Payloads(slots: seq<Option<seq<byte>>>, padding: nat, extraArrays: nat): (r: seq<seq<byte>>)
    requires extraArrays <= |slots|
    ensures |r| == |slots| - extraArrays
  {
    seq(|slots| - extraArrays, j requires 0 <= j < |slots| - extraArrays => Payload(slots[extraArrays + j], padding))
  }

  function Pieces(source: seq<byte>, length: int): (r: seq<seq<byte>>)
    requires length > 0
    ensures |r| == ArrayCount(|source|, length)
  {
    FirstPieces(source, length, ArrayCount(|source|, length))
  }

  lemma IntendedPayloads(source: seq<byte>, length: int, padding: nat, extraArrays: nat)
    requires length > 0
    ensures Payloads(IntendedSplitSlots(source, length, padding, extraArrays), padding, extraArrays)
      == Pieces(source, length)
  {
    var slots := IntendedSplitSlots(source, length, padding, extraArrays);
    var payloads := Payloads(slots, padding, extraArrays);
    var pieces := Pieces(source, length);
    forall j | 0 <= j < |pieces|
      ensures payloads[j] == pieces[j]
    {
      assert slots[extraArrays + j] == Some(Packet(source, length, padding, j));
      PacketParts(source, length, padding, j);
      assert payloads[j] == Payload(slots[extraArrays + j], padding);
      assert pieces[j] == Piece(source, length, j);
    }
  }

  /** The data of the slots `split` is meant to fill spell out the source. */
  lemma IntendedSplitCovers(source: seq<byte>, length: int, padding: nat, extraArrays: nat)
    requires length > 0
    ensures Flatten(Payloads(IntendedSplitSlots(source, length, padding, extraArrays), padding, extraArrays)) == source
  {
    IntendedPayloads(source, length, padding, extraArrays);
    var count := ArrayCount(|source|, length);
    PiecesCover(source, length, count);
  }

  /** As written, a second extra slot loses the last piece: a one-byte source comes back empty. */
  lemma SplitTwoExtraDropsData()
    ensures SplitSlots([7], 1, 0, 2) == [None, None, None]
    ensures IntendedSplitSlots([7], 1, 0, 2) == [None, None, Some([7])]
  {
    assert ArrayCount(1, 1) == 1;
    assert Packet([7], 1, 0, 0) == [7];
    var slots := SplitSlots([7], 1, 0, 2);
    assert slots[2] == None;
    var intended := IntendedSplitSlots([7], 1, 0, 2);
    assert intended[2] == Some([7]);
  }
}
