/**
 * `WAVEDecoderNIO`: reads a RIFF/WAVE file of PCM samples into a
 * little-endian `ByteBuffer`, checks the RIFF header, walks the chunks to
 * "fmt " and reads the format, then walks on to "data" and copies the
 * samples out.
 *
 * The file's bytes are a parameter; `ByteBuffer` becomes the class
 * `ByteBuffer` below with the few operations the decoder uses, and each
 * static step of the decoder a method proved against a function that says
 * where the step leaves the buffer or which exception it throws.
 */
module Wave {
  import opened Java
  import Bytes

  // The chunk identifiers, as their US-ASCII bytes. `readString` decodes
  // four bytes as US-ASCII, where a byte above 0x7F becomes U+FFFD, so its
  // result equals one of these strings exactly when the bytes are these.
  const RIFF: seq<byte> := [0x52, 0x49, 0x46, 0x46]
  const WAVE: seq<byte> := [0x57, 0x41, 0x56, 0x45]
  const FMT: seq<byte> := [0x66, 0x6D, 0x74, 0x20]
  const DATA: seq<byte> := [0x64, 0x61, 0x74, 0x61]

  /** The audio format code of uncompressed PCM. */
  const PCM: short := 1

  // Little-endian numbers.

  function Swap4(b: seq<byte>): (r: seq<byte>)
    requires |b| == 4
    ensures |r| == 4
  {
    [b[3], b[2], b[1], b[0]]
  }

  /** `getInt` on a little-endian buffer: the big-endian int of the four bytes in reverse order. */
  function LeInt(a: seq<byte>, index: int): int32
    requires 0 <= index && index + 4 <= |a|
  {
    Bytes.GetInteger(Swap4(a[index..index + 4]), 0)
  }

  /** `getShort` on a little-endian buffer. */
  function LeShort(a: seq<byte>, index: int): short
    requires 0 <= index && index + 2 <= |a|
  {
    Bytes.GetShort([a[index + 1], a[index]], 0)
  }

  /** The four bytes that store an int little-endian. */
  function LeIntBytes(v: int32): (r: seq<byte>)
    ensures |r| == 4
  {
    Swap4(Bytes.IntBytes(v))
  }

  /** The two bytes that store a short little-endian. */
  function LeShortBytes(v: short): (r: seq<byte>)
    ensures |r| == 2
  {
    var b := Bytes.ShortBytes(v);
    [b[1], b[0]]
  }

  /** Reading an int where its little-endian bytes are stored gives it back. */
  lemma LeIntOf(a: seq<byte>, index: int, v: int32)
    requires 0 <= index && index + 4 <= |a|
    requires a[index..index + 4] == LeIntBytes(v)
    ensures LeInt(a, index) == v
  {
    assert Swap4(a[index..index + 4]) == Bytes.IntBytes(v);
    Bytes.IntegerRoundTrip(Bytes.IntBytes(v), 0, v);
    assert Bytes.Splice(Bytes.IntBytes(v), 0, Bytes.IntBytes(v)) == Bytes.IntBytes(v);
  }

  /** Reading a short where its little-endian bytes are stored gives it back. */
  lemma LeShortOf(a: seq<byte>, index: int, v: short)
    requires 0 <= index && index + 2 <= |a|
    requires a[index..index + 2] == LeShortBytes(v)
    ensures LeShort(a, index) == v
  {
    assert a[index] == a[index..index + 2][0] && a[index + 1] == a[index..index + 2][1];
    assert [a[index + 1], a[index]] == Bytes.ShortBytes(v);
    Bytes.ShortRoundTrip(Bytes.ShortBytes(v), 0, v);
    assert Bytes.Splice(Bytes.ShortBytes(v), 0, Bytes.ShortBytes(v)) == Bytes.ShortBytes(v);
  }

  /** A chunk size read as the unsigned 32-bit number the RIFF format stores. */
  function Unsigned(x: int32): (r: int)
    ensures 0 <= r < 0x1_0000_0000
    ensures r % 0x1_0000_0000 == x % 0x1_0000_0000
  {
    if x < 0 then x + 0x1_0000_0000 else x
  }

  /** A sum that passes the largest int wraps to a negative one. */
  lemma WrapPastMax(x: int)
    requires INT_MAX < x < 0x1_0000_0000
    ensures ToInt32(x) < 0
  {
    WrapShift(x - 0x1_0000_0000, 1, 0x1_0000_0000);
    WrapId(x - 0x1_0000_0000, 0x1_0000_0000);
  }

  /** Moving a position forward in int arithmetic stays within `0..limit` exactly when the true sum does. */
  lemma SkipWraps(p: int, n: nat, limit: int)
    requires 0 <= p <= limit <= INT_MAX && n <= INT_MAX
    ensures (0 <= ToInt32(p + n) <= limit) <==> p + n <= limit
    ensures p + n <= limit ==> ToInt32(p + n) == p + n
  {
    if p + n <= INT_MAX {
      WrapId(p + n, 0x1_0000_0000);
    } else {
      WrapPastMax(p + n);
    }
  }

  /** A step's outcome without the position it leaves. */
  function Done<T>(spec: Result<T>): (r: Result<()>)
    ensures r.Ok? <==> spec.Ok?
    ensures r.Err? ==> r.error == spec.error
  {
    if spec.Ok? then Ok(()) else Err(spec.error)
  }

  /** The format fields `readFormat` stores. */
  datatype Format = Format(channels: short, sampleRate: int32, byteRate: int32, blockAlign: short, bitsPerSample: short)

  /** A decoded sound: its format and its samples. */
  datatype Sound = Sound(format: Format, samples: seq<byte>)

  /**
   * A heap `ByteBuffer` in little-endian order holding the file: its
   * capacity is the length of `content`, and reads happen between
   * `position` and `limit`.
   */
  class ByteBuffer {
    const content: seq<byte>
    var position: int
    var limit: int

    ghost predicate Valid()
      reads this
    {
      0 <= position <= limit <= |content| <= INT_MAX
    }

    /** `allocate`, a `read` of the whole file, then `flip`. */
    constructor(content: seq<byte>)
      requires |content| <= INT_MAX
      ensures Valid()
      ensures this.content == content && position == 0 && limit == |content|
    {
      this.content := content;
      position := 0;
      limit := |content|;
    }

    /** `hasRemaining()`. */
    predicate HasRemaining()
      reads this
    {
      position < limit
    }

    /** `get(byte[n])`: the next `n` bytes, or `BufferUnderflowException` with nothing read. */
    method Get(n: nat) returns (r: Result<seq<byte>>)
      requires Valid()
      modifies this
      ensures Valid() && limit == old(limit)
      ensures old(limit - position) >= n ==> (
        r == Ok(content[old(position)..old(position) + n]) && position == old(position) + n)
      ensures old(limit - position) < n ==> r == Err(BufferUnderflow) && position == old(position)
    {
      if limit - position < n {
        return Err(BufferUnderflow);
      }
      r := Ok(content[position..position + n]);
      position := position + n;
    }

    /** `getInt()`. */
    method GetInt() returns (r: Result<int32>)
      requires Valid()
      modifies this
      ensures Valid() && limit == old(limit)
      ensures old(limit - position) >= 4 ==> (
        r == Ok(LeInt(content, old(position))) && position == old(position) + 4)
      ensures old(limit - position) < 4 ==> r == Err(BufferUnderflow) && position == old(position)
    {
      if limit - position < 4 {
        return Err(BufferUnderflow);
      }
      r := Ok(LeInt(content, position));
      position := position + 4;
    }

    /** `getShort()`. */
    method GetShort() returns (r: Result<short>)
      requires Valid()
      modifies this
      ensures Valid() && limit == old(limit)
      ensures old(limit - position) >= 2 ==> (
        r == Ok(LeShort(content, old(position))) && position == old(position) + 2)
      ensures old(limit - position) < 2 ==> r == Err(BufferUnderflow) && position == old(position)
    {
      if limit - position < 2 {
        return Err(BufferUnderflow);
      }
      r := Ok(LeShort(content, position));
      position := position + 2;
    }

    /** `position(p)`: a position outside `0..limit` is `IllegalArgumentException`. */
    method SetPosition(p: int) returns (r: Result<()>)
      requires Valid()
      modifies this
      ensures Valid() && limit == old(limit)
      ensures 0 <= p <= limit ==> r == Ok(()) && position == p
      ensures !(0 <= p <= limit) ==> r == Err(IllegalArgument) && position == old(position)
    {
      if !(0 <= p <= limit) {
        return Err(IllegalArgument);
      }
      position := p;
      return Ok(());
    }

    /**
     * `limit(l)`: a limit outside `0..capacity` is `IllegalArgumentException`;
     * a position past the new limit moves back to it.
     */
    method SetLimit(l: int) returns (r: Result<()>)
      requires Valid()
      modifies this
      ensures Valid()
      ensures 0 <= l <= |content| ==> (
        r == Ok(()) && limit == l && position == if old(position) > l then l else old(position))
      ensures !(0 <= l <= |content|) ==> r == Err(IllegalArgument) && limit == old(limit) && position == old(position)
    {
      if !(0 <= l <= |content|) {
        return Err(IllegalArgument);
      }
      limit := l;
      if position > l {
        position := l;
      }
      return Ok(());
    }

    /** The source side of `put(buffer)`: the bytes up to the limit, which leaves no bytes remaining. */
    method Drain() returns (r: seq<byte>)
      requires Valid()
      modifies this
      ensures Valid() && limit == old(limit)
      ensures r == content[old(position)..old(limit)] && position == limit
    {
      r := content[position..limit];
      position := limit;
    }
  }

  /** The decoder's fields: zero, and `data` null, until `decode` fills them. */
  class WAVEDecoder {
    var format: short
    var numChannels: short
    var sampleRate: int32
    var byteRate: int32
    var blockAlign: short
    var bitsPerSample: short
    var data: Option<seq<byte>>

    constructor()
      ensures format == 0 && Info() == Format(0, 0, 0, 0, 0) && data == None
    {
      format, numChannels, sampleRate, byteRate, blockAlign, bitsPerSample := 0, 0, 0, 0, 0, 0;
      data := None;
    }

    /** The format fields as one value. */
    function Info(): Format
      reads this
    {
      Format(numChannels, sampleRate, byteRate, blockAlign, bitsPerSample)
    }

    /** `isSigned()`: 16-bit samples are signed, any other width unsigned. */
    predicate IsSigned()
      reads this
      ensures IsSigned() <==> Info().bitsPerSample == 16
    {
      bitsPerSample == 16
    }

    /** `getData()`: the samples, or a `RuntimeException` before the file is decoded. */
    method GetData() returns (r: Result<seq<byte>>)
      ensures data.None? ==> r == Err(Runtime)
      ensures data.Some? ==> r == Ok(data.value)
    {
      if data.None? {
        return Err(Runtime);
      }
      return Ok(data.value);
    }
  }

  // The steps of `decode`, each as the position it leaves or the exception it throws.

  /**
   * `checkHeader` from `pos`: "RIFF", a skipped size, then "WAVE". The skip
   * is `position(position() + 4)`; a sum past the largest int would wrap
   * negative, which `position` refuses just as it refuses a position past
   * the limit.
   */
  function Header(content: seq<byte>, limit: int, pos: int): (r: Result<int>)
    requires 0 <= pos <= limit <= |content| <= INT_MAX
    ensures r.Ok? ==> pos <= r.value <= limit
  {
    if limit - pos < 4 then Err(BufferUnderflow)
    else if content[pos..pos + 4] != RIFF then Err(IO)
    else if pos + 8 > limit then Err(IllegalArgument)
    else if limit - pos < 12 then Err(BufferUnderflow)
    else if content[pos + 8..pos + 12] != WAVE then Err(IO)
    else Ok(pos + 12)
  }

  /**
   * The header is accepted exactly when the buffer holds twelve more bytes,
   * the first four "RIFF" and the last four "WAVE"; reading goes on after them.
   */
  lemma HeaderAccepts(content: seq<byte>, limit: int, pos: int)
    requires 0 <= pos <= limit <= |content| <= INT_MAX
    ensures Header(content, limit, pos).Ok? <==> (
      limit - pos >= 12 && content[pos..pos + 4] == RIFF && content[pos + 8..pos + 12] == WAVE)
    ensures Header(content, limit, pos).Ok? ==> Header(content, limit, pos).value == pos + 12
  {
  }

  /**
   * `findChunk` as written, from `pos`: the position after the matching
   * identifier. Each other chunk is skipped by its size read as a signed
   * int, the new position computed in int arithmetic; the search recurses,
   * so `depth` is the number of calls the stack still has room for.
   */
  function FindChunkAsWritten(id: seq<byte>, content: seq<byte>, limit: int, pos: int, depth: nat): (r: Result<int>)
    requires 0 <= pos <= limit <= |content| <= INT_MAX
    ensures r.Ok? ==> 4 <= r.value <= limit && content[r.value - 4..r.value] == id
    decreases depth
  {
    if limit - pos < 4 then Err(BufferUnderflow)
    else if content[pos..pos + 4] == id then Ok(pos + 4)
    else if limit - pos < 8 then Err(BufferUnderflow)
    else
      var next := ToInt32(pos + 8 + LeInt(content, pos + 4));
      if next < 0 || next > limit then Err(IllegalArgument)
      else if next == limit then Err(IO)
      else if depth == 0 then Err(StackOverflow)
      else FindChunkAsWritten(id, content, limit, next, depth - 1)
  }

  /** One step of `findChunk` as written past a chunk of another kind, which ends at `next`. */
  lemma {:induction false} FindChunkNext(id: seq<byte>, content: seq<byte>, limit: int, pos: int, depth: nat, next: int)
    requires 0 <= pos <= limit <= |content| <= INT_MAX
    requires limit - pos >= 8 && content[pos..pos + 4] != id
    requires next == ToInt32(pos + 8 + LeInt(content, pos + 4))
    ensures FindChunkAsWritten(id, content, limit, pos, depth) ==
      if next < 0 || next > limit then Err(IllegalArgument)
      else if next == limit then Err(IO)
      else if depth == 0 then Err(StackOverflow)
      else FindChunkAsWritten(id, content, limit, next, depth - 1)
  {
    var skip := ToInt32(pos + 8 + LeInt(content, pos + 4));
    assert skip == next;
    if 0 <= next < limit && depth > 0 {
      assert FindChunkAsWritten(id, content, limit, pos, depth) == FindChunkAsWritten(id, content, limit, skip, depth - 1);
    }
  }

  /**
   * A chunk of another kind whose size field reads -8 sends the search back
   * to the start of that same chunk, so `findChunk` as written recurses
   * until the stack overflows, however deep the stack.
   */
  lemma {:induction false} FindChunkLoops(id: seq<byte>, content: seq<byte>, limit: int, pos: int, depth: nat)
    requires 0 <= pos <= limit <= |content| <= INT_MAX
    requires limit - pos >= 8 && content[pos..pos + 4] != id && LeInt(content, pos + 4) == -8
    ensures FindChunkAsWritten(id, content, limit, pos, depth) == Err(StackOverflow)
    decreases depth
  {
    WrapId(pos, 0x1_0000_0000);
    if depth > 0 {
      FindChunkLoops(id, content, limit, pos, depth - 1);
    }
  }

  /**
   * `findChunk` with the chunk size read as the unsigned number RIFF
   * stores: every skip moves forward, so the search ends, and a chunk it
   * finds carries the identifier it looked for.
   */
  function FindChunkSpec(id: seq<byte>, content: seq<byte>, limit: int, pos: int): (r: Result<int>)
    requires 0 <= pos <= limit <= |content| <= INT_MAX
    ensures r.Ok? ==> pos + 4 <= r.value <= limit && content[r.value - 4..r.value] == id
    decreases limit - pos
  {
    if limit - pos < 4 then Err(BufferUnderflow)
    else if content[pos..pos + 4] == id then Ok(pos + 4)
    else if limit - pos < 8 then Err(BufferUnderflow)
    else
      var next := pos + 8 + Unsigned(LeInt(content, pos + 4));
      if next > limit then Err(IllegalArgument)
      else if next == limit then Err(IO)
      else FindChunkSpec(id, content, limit, next)
  }

  /** One step of the intended search past a chunk of another kind, which ends at `next`. */
  lemma {:induction false} FindChunkSpecNext(id: seq<byte>, content: seq<byte>, limit: int, pos: int, next: int)
    requires 0 <= pos <= limit <= |content| <= INT_MAX
    requires limit - pos >= 8 && content[pos..pos + 4] != id
    requires next == pos + 8 + Unsigned(LeInt(content, pos + 4))
    ensures FindChunkSpec(id, content, limit, pos) ==
      if next > limit then Err(IllegalArgument)
      else if next == limit then Err(IO)
      else FindChunkSpec(id, content, limit, next)
  {
    var skip := pos + 8 + Unsigned(LeInt(content, pos + 4));
    assert skip == next;
    if next < limit {
      assert FindChunkSpec(id, content, limit, pos) == FindChunkSpec(id, content, limit, skip);
    }
  }

  /** Where `findChunk` as written loops on a size of -8, the unsigned size runs past the end of the buffer. */
  lemma FindChunkSpecStops(id: seq<byte>, content: seq<byte>, limit: int, pos: int)
    requires 0 <= pos <= limit <= |content| <= INT_MAX
    requires limit - pos >= 8 && content[pos..pos + 4] != id && LeInt(content, pos + 4) == -8
    ensures FindChunkSpec(id, content, limit, pos) == Err(IllegalArgument)
  {
  }

  /**
   * `readFormat` from `pos`: skip the sub-chunk size, insist on the PCM
   * format code, then read channels, sample rate, byte rate, block align
   * and bits per sample. (The skip wraps past the largest int as in
   * `Header`.)
   */
  function FormatSpec(content: seq<byte>, limit: int, pos: int): (r: Result<(Format, int)>)
    requires 0 <= pos <= limit <= |content| <= INT_MAX
    ensures r.Ok? ==> pos <= r.value.1 <= limit
  {
    if pos + 4 > limit then Err(IllegalArgument)
    else if limit - pos < 6 then Err(BufferUnderflow)
    else if LeShort(content, pos + 4) != PCM then Err(IO)
    else Fields(content, limit, pos + 6)
  }

  /** The five fields after the format code: channels, sample rate, byte rate, block align, bits per sample. */
  function Fields(content: seq<byte>, limit: int, pos: int): (r: Result<(Format, int)>)
    requires 0 <= pos <= limit <= |content| <= INT_MAX
    ensures r.Ok? ==> r.value.1 == pos + 14 <= limit
  {
    if limit - pos < 14 then Err(BufferUnderflow)
    else
      var format := Format(LeShort(content, pos), LeInt(content, pos + 2), LeInt(content, pos + 6),
        LeShort(content, pos + 10), LeShort(content, pos + 12));
      Ok((format, pos + 14))
  }

  /** The format is read exactly when twenty bytes remain and the format code is PCM. */
  lemma FormatAccepts(content: seq<byte>, limit: int, pos: int)
    requires 0 <= pos <= limit <= |content| <= INT_MAX
    ensures FormatSpec(content, limit, pos).Ok? <==> limit - pos >= 20 && LeShort(content, pos + 4) == PCM
    ensures FormatSpec(content, limit, pos).Ok? ==> FormatSpec(content, limit, pos).value.1 == pos + 20
  {
  }

  /** The sixteen bytes of a PCM "fmt " sub-chunk body. */
  function FormatBytes(f: Format): (r: seq<byte>)
    ensures |r| == 16
  {
    LeShortBytes(PCM) + LeShortBytes(f.channels) + LeIntBytes(f.sampleRate) + LeIntBytes(f.byteRate)
      + LeShortBytes(f.blockAlign) + LeShortBytes(f.bitsPerSample)
  }

  /** A slice of a stored sequence is the slice of the stored part. */
  lemma SliceWithin(s: seq<byte>, i: int, t: seq<byte>, k: int, l: int)
    requires 0 <= i && i + |t| <= |s| && s[i..i + |t|] == t && 0 <= k <= l <= |t|
    ensures s[i + k..i + l] == t[k..l]
  {
    forall j | 0 <= j < l - k
      ensures s[i + k..i + l][j] == t[k..l][j]
    {
      assert s[i + k + j] == s[i..i + |t|][k + j];
    }
  }

  /** Where each field lies in a format body. */
  lemma FormatBytesLayout(f: Format)
    ensures var body := FormatBytes(f);
      body[0..2] == LeShortBytes(PCM) && body[2..4] == LeShortBytes(f.channels)
      && body[4..8] == LeIntBytes(f.sampleRate) && body[8..12] == LeIntBytes(f.byteRate)
      && body[12..14] == LeShortBytes(f.blockAlign) && body[14..16] == LeShortBytes(f.bitsPerSample)
  {
    Parts6(LeShortBytes(PCM), LeShortBytes(f.channels), LeIntBytes(f.sampleRate), LeIntBytes(f.byteRate),
      LeShortBytes(f.blockAlign), LeShortBytes(f.bitsPerSample));
  }

  /** Where the parts of six joined pieces of two, two, four, four, two and two bytes lie. */
  lemma Parts6(p1: seq<byte>, p2: seq<byte>, p3: seq<byte>, p4: seq<byte>, p5: seq<byte>, p6: seq<byte>)
    requires |p1| == 2 && |p2| == 2 && |p3| == 4 && |p4| == 4 && |p5| == 2 && |p6| == 2
    ensures var s := p1 + p2 + p3 + p4 + p5 + p6;
      s[0..2] == p1 && s[2..4] == p2 && s[4..8] == p3 && s[8..12] == p4 && s[12..14] == p5 && s[14..16] == p6
  {
  }

  /** Where the parts of three joined pieces lie. */
  lemma Parts3(a: seq<byte>, b: seq<byte>, c: seq<byte>)
    ensures var s := a + b + c;
      s[0..|a|] == a && s[|a|..|a| + |b|] == b && s[|a| + |b|..|a| + |b| + |c|] == c
  {
  }

  /** The fields of a stored format body read back as the format's fields. */
  lemma FormatFields(content: seq<byte>, start: int, f: Format)
    requires 0 <= start && start + 16 <= |content| && content[start..start + 16] == FormatBytes(f)
    ensures LeShort(content, start) == PCM
    ensures LeShort(content, start + 2) == f.channels && LeInt(content, start + 4) == f.sampleRate
    ensures LeInt(content, start + 8) == f.byteRate && LeShort(content, start + 12) == f.blockAlign
    ensures LeShort(content, start + 14) == f.bitsPerSample
  {
    var body := FormatBytes(f);
    FormatBytesLayout(f);
    ShortField(content, start, 16, body, 0, PCM);
    ShortField(content, start, 16, body, 2, f.channels);
    IntField(content, start, 16, body, 4, f.sampleRate);
    IntField(content, start, 16, body, 8, f.byteRate);
    ShortField(content, start, 16, body, 12, f.blockAlign);
    ShortField(content, start, 16, body, 14, f.bitsPerSample);
  }

  /** A short stored inside a stored sequence reads back where it lies. */
  lemma ShortField(content: seq<byte>, start: int, n: int, body: seq<byte>, j: int, v: short)
    requires 0 <= start && start + n <= |content| && |body| == n && content[start..start + n] == body
    requires 0 <= j && j + 2 <= n && body[j..j + 2] == LeShortBytes(v)
    ensures LeShort(content, start + j) == v
  {
    Nested(content, start, body, j, LeShortBytes(v));
    LeShortOf(content, start + j, v);
  }

  /** An int stored inside a stored sequence reads back where it lies. */
  lemma IntField(content: seq<byte>, start: int, n: int, body: seq<byte>, j: int, v: int32)
    requires 0 <= start && start + n <= |content| && |body| == n && content[start..start + n] == body
    requires 0 <= j && j + 4 <= n && body[j..j + 4] == LeIntBytes(v)
    ensures LeInt(content, start + j) == v
  {
    Nested(content, start, body, j, LeIntBytes(v));
    LeIntOf(content, start + j, v);
  }

  /** A part stored inside a stored sequence is stored at the sum of the two offsets. */
  lemma Nested(s: seq<byte>, i: int, t: seq<byte>, j: int, u: seq<byte>)
    requires 0 <= i && i + |t| <= |s| && s[i..i + |t|] == t
    requires 0 <= j && j + |u| <= |t| && t[j..j + |u|] == u
    ensures s[i + j..i + j + |u|] == u
  {
    SliceWithin(s, i, t, j, j + |u|);
  }

  /** Wherever a PCM format body follows the sub-chunk size, it reads back as that format. */
  lemma FormatRoundTrip(content: seq<byte>, limit: int, pos: int, f: Format)
    requires 0 <= pos <= limit <= |content| <= INT_MAX
    requires pos + 20 <= limit && content[pos + 4..pos + 20] == FormatBytes(f)
    ensures FormatSpec(content, limit, pos) == Ok((f, pos + 20))
  {
    var start := pos + 4;
    FormatFields(content, start, f);
    assert pos + 6 == start + 2 && pos + 6 + 2 == start + 4 && pos + 6 + 6 == start + 8;
    assert pos + 6 + 10 == start + 12 && pos + 6 + 12 == start + 14;
  }

  /**
   * `readData` from `pos`: a size, then that many bytes, all within the
   * capacity. The new limit `position + size` is computed in int
   * arithmetic, and a sum past the largest int wraps negative, which
   * `limit` refuses like a limit past the capacity; a negative size is
   * refused by `limit` or by the allocation of the copy.
   */
  function DataSpec(content: seq<byte>, limit: int, pos: int): (r: Result<(seq<byte>, int)>)
    requires 0 <= pos <= limit <= |content| <= INT_MAX
    ensures r.Ok? ==> pos + 4 + |r.value.0| == r.value.1 <= |content|
  {
    if limit - pos < 4 then Err(BufferUnderflow)
    else
      var size := LeInt(content, pos);
      if size < 0 || pos + 4 + size > |content| then Err(IllegalArgument)
      else Ok((content[pos + 4..pos + 4 + size], pos + 4 + size))
  }

  /** Wherever a size is followed by that many bytes, the data reads back as those bytes. */
  lemma DataRoundTrip(content: seq<byte>, limit: int, pos: int, samples: seq<byte>)
    requires 0 <= pos <= limit <= |content| <= INT_MAX
    requires pos + 4 <= limit && pos + 4 + |samples| <= |content|
    requires content[pos..pos + 4] == LeIntBytes(|samples|) && content[pos + 4..pos + 4 + |samples|] == samples
    ensures DataSpec(content, limit, pos) == Ok((samples, pos + 4 + |samples|))
  {
    LeIntOf(content, pos, |samples|);
  }

  /**
   * `decode` on the bytes of a file, as written: the format and the
   * samples, or the exception. Each `findChunk` starts with room for
   * `depth` further calls on the stack.
   */
  function DecodeSpec(file: seq<byte>, depth: nat): Result<Sound>
    requires |file| <= INT_MAX
  {
    var n := |file|;
    var header := Header(file, n, 0);
    if header.Err? then Err(header.error) else
    var fmt := FindChunkAsWritten(FMT, file, n, header.value, depth);
    if fmt.Err? then Err(fmt.error) else
    var format := FormatSpec(file, n, fmt.value);
    if format.Err? then Err(format.error) else
    var data := FindChunkAsWritten(DATA, file, n, format.value.1, depth);
    if data.Err? then Err(data.error) else
    var samples := DataSpec(file, n, data.value);
    if samples.Err? then Err(samples.error) else
    Ok(Sound(format.value.0, samples.value.0))
  }

  /** `decode` with the chunk sizes read unsigned, as `FindChunkSpec` reads them. */
  function DecodeSpecIntended(file: seq<byte>): Result<Sound>
    requires |file| <= INT_MAX
  {
    var n := |file|;
    var header := Header(file, n, 0);
    if header.Err? then Err(header.error) else
    var fmt := FindChunkSpec(FMT, file, n, header.value);
    if fmt.Err? then Err(fmt.error) else
    var format := FormatSpec(file, n, fmt.value);
    if format.Err? then Err(format.error) else
    var data := FindChunkSpec(DATA, file, n, format.value.1);
    if data.Err? then Err(data.error) else
    var samples := DataSpec(file, n, data.value);
    if samples.Err? then Err(samples.error) else
    Ok(Sound(format.value.0, samples.value.0))
  }

  /**
   * A file whose first chunk is not "fmt " and whose size field reads -8:
   * `decode` as written overflows the stack however deep it is, while the
   * intended decode refuses the size as running past the end of the file.
   */
  lemma DecodeLoops(file: seq<byte>, depth: nat)
    requires 20 <= |file| <= INT_MAX
    requires file[0..4] == RIFF && file[8..12] == WAVE && file[12..16] != FMT && LeInt(file, 16) == -8
    ensures DecodeSpec(file, depth) == Err(StackOverflow)
    ensures DecodeSpecIntended(file) == Err(IllegalArgument)
  {
    HeaderAccepts(file, |file|, 0);
    FindChunkLoops(FMT, file, |file|, 12, depth);
    FindChunkSpecStops(FMT, file, |file|, 12);
  }

  /** The canonical 44-byte header of a PCM WAVE file, then its samples. */
  function WaveFile(f: Format, samples: seq<byte>): (r: seq<byte>)
    requires |samples| <= INT_MAX - 44
    ensures |r| == 44 + |samples|
  {
    RiffHead(36 + |samples|) + FormatChunk(f) + DataHead(|samples|) + samples
  }

  /** "RIFF", the size of the rest of the file, "WAVE". */
  function RiffHead(size: int32): (r: seq<byte>)
    ensures |r| == 12
  {
    RIFF + LeIntBytes(size) + WAVE
  }

  /** A "fmt " chunk holding a PCM format. */
  function FormatChunk(f: Format): (r: seq<byte>)
    ensures |r| == 24
  {
    FMT + LeIntBytes(16) + FormatBytes(f)
  }

  /** The head of a "data" chunk of `size` bytes. */
  function DataHead(size: int32): (r: seq<byte>)
    ensures |r| == 8
  {
    DATA + LeIntBytes(size)
  }

  /** The two halves of a joined sequence. */
  lemma JoinSlices(a: seq<byte>, b: seq<byte>)
    ensures (a + b)[0..|a|] == a && (a + b)[|a|..|a| + |b|] == b
  {
  }

  /** Where each chunk of a canonical file lies. */
  lemma WaveFileParts(f: Format, samples: seq<byte>)
    requires |samples| <= INT_MAX - 44
    ensures var file := WaveFile(f, samples);
      file[0..12] == RiffHead(36 + |samples|) && file[12..36] == FormatChunk(f)
      && file[36..44] == DataHead(|samples|) && file[44..44 + |samples|] == samples
  {
    var file := WaveFile(f, samples);
    var riff, fmt, data := RiffHead(36 + |samples|), FormatChunk(f), DataHead(|samples|);
    var front := riff + fmt;
    var head := front + data;
    assert file == head + samples;
    JoinSlices(head, samples);
    JoinSlices(front, data);
    JoinSlices(riff, fmt);
    Nested(file, 0, head, 0, front);
    Nested(file, 0, front, 0, riff);
    Nested(file, 0, front, 12, fmt);
    Nested(file, 0, head, 36, data);
  }

  /** Where each field of a canonical header lies. */
  lemma WaveFileLayout(f: Format, samples: seq<byte>)
    requires |samples| <= INT_MAX - 44
    ensures var file := WaveFile(f, samples);
      file[0..4] == RIFF && file[8..12] == WAVE && file[12..16] == FMT && file[20..36] == FormatBytes(f)
      && file[36..40] == DATA && file[40..44] == LeIntBytes(|samples|) && file[44..44 + |samples|] == samples
  {
    var file := WaveFile(f, samples);
    var riff, fmt, data := RiffHead(36 + |samples|), FormatChunk(f), DataHead(|samples|);
    WaveFileParts(f, samples);
    Parts3(RIFF, LeIntBytes(36 + |samples|), WAVE);
    Parts3(FMT, LeIntBytes(16), FormatBytes(f));
    JoinSlices(DATA, LeIntBytes(|samples|));
    Nested(file, 0, riff, 0, RIFF);
    Nested(file, 0, riff, 8, WAVE);
    Nested(file, 12, fmt, 0, FMT);
    Nested(file, 12, fmt, 8, FormatBytes(f));
    Nested(file, 36, data, 0, DATA);
    Nested(file, 36, data, 4, LeIntBytes(|samples|));
  }

  /**
   * Decoding a canonical PCM WAVE file gives back its format and its
   * samples, whatever room the stack has, and so does the intended decode.
   */
  lemma DecodeWaveFile(f: Format, samples: seq<byte>, depth: nat)
    requires |samples| <= INT_MAX - 44
    ensures DecodeSpec(WaveFile(f, samples), depth) == Ok(Sound(f, samples))
    ensures DecodeSpecIntended(WaveFile(f, samples)) == Ok(Sound(f, samples))
  {
    var file := WaveFile(f, samples);
    var n := |file|;
    WaveFileLayout(f, samples);
    HeaderAccepts(file, n, 0);
    assert Header(file, n, 0) == Ok(12);
    assert FindChunkSpec(FMT, file, n, 12) == Ok(16);
    assert FindChunkAsWritten(FMT, file, n, 12, depth) == Ok(16);
    FormatRoundTrip(file, n, 16, f);
    assert FindChunkSpec(DATA, file, n, 36) == Ok(40);
    assert FindChunkAsWritten(DATA, file, n, 36, depth) == Ok(40);
    DataRoundTrip(file, n, 40, samples);
  }

  // The decoder's steps on a buffer.

  /** `readString`: the next four bytes. */
  method ReadString(buf: ByteBuffer) returns (r: Result<seq<byte>>)
    requires buf.Valid()
    modifies buf
    ensures buf.Valid() && buf.limit == old(buf.limit)
    ensures old(buf.limit - buf.position) >= 4 ==> (
      r == Ok(buf.content[old(buf.position)..old(buf.position) + 4]) && buf.position == old(buf.position) + 4)
    ensures old(buf.limit - buf.position) < 4 ==> r == Err(BufferUnderflow)
  {
    r := buf.Get(4);
  }

  /** `checkHeader`. */
  method CheckHeader(buf: ByteBuffer) returns (r: Result<()>)
    requires buf.Valid()
    modifies buf
    ensures buf.Valid() && buf.limit == old(buf.limit)
    ensures r == Done(Header(buf.content, old(buf.limit), old(buf.position)))
    ensures r.Ok? ==> buf.position == Header(buf.content, old(buf.limit), old(buf.position)).value
  {
    var riff := ReadString(buf);
    if riff.Err? {
      return Err(riff.error);
    }
    if riff.value != RIFF {
      return Err(IO);
    }
    SkipWraps(buf.position, 4, buf.limit);
    var skipped := buf.SetPosition(ToInt32(buf.position + 4));
    if skipped.Err? {
      return Err(skipped.error);
    }
    var wave := ReadString(buf);
    if wave.Err? {
      return Err(wave.error);
    }
    if wave.value != WAVE {
      return Err(IO);
    }
    return Ok(());
  }

  /**
   * `findChunk` as written: the position after the identifier `id`. The
   * chunk size is read as a signed int and added to the position in int
   * arithmetic; `depth` is the number of further calls the stack has room for.
   */
  method FindChunk(id: seq<byte>, buf: ByteBuffer, depth: nat) returns (r: Result<()>)
    requires buf.Valid()
    modifies buf
    ensures buf.Valid() && buf.limit == old(buf.limit)
    ensures r == Done(FindChunkAsWritten(id, buf.content, old(buf.limit), old(buf.position), depth))
    ensures r.Ok? ==> buf.position == FindChunkAsWritten(id, buf.content, old(buf.limit), old(buf.position), depth).value
    decreases depth
  {
    ghost var start := buf.position;
    var tag := ReadString(buf);
    if tag.Err? {
      return Err(tag.error);
    }
    if tag.value == id {
      return Ok(());
    }
    var size := buf.GetInt();
    if size.Err? {
      return Err(size.error);
    }
    var next := ToInt32(buf.position + size.value);
    FindChunkNext(id, buf.content, buf.limit, start, depth, next);
    var moved := buf.SetPosition(next);
    if moved.Err? {
      return Err(moved.error);
    }
    if !buf.HasRemaining() {
      return Err(IO);
    }
    if depth == 0 {
      return Err(StackOverflow);
    }
    r := FindChunk(id, buf, depth - 1);
  }

  /** `findChunk` with the chunk size read unsigned: the position after the identifier `id`. */
  method FindChunkIntended(id: seq<byte>, buf: ByteBuffer) returns (r: Result<()>)
    requires buf.Valid()
    modifies buf
    ensures buf.Valid() && buf.limit == old(buf.limit)
    ensures r == Done(FindChunkSpec(id, buf.content, old(buf.limit), old(buf.position)))
    ensures r.Ok? ==> buf.position == FindChunkSpec(id, buf.content, old(buf.limit), old(buf.position)).value
    decreases buf.limit - buf.position
  {
    ghost var start := buf.position;
    var tag := ReadString(buf);
    if tag.Err? {
      return Err(tag.error);
    }
    if tag.value == id {
      return Ok(());
    }
    var size := buf.GetInt();
    if size.Err? {
      return Err(size.error);
    }
    var next := buf.position + Unsigned(size.value);
    FindChunkSpecNext(id, buf.content, buf.limit, start, next);
    var moved := buf.SetPosition(next);
    if moved.Err? {
      return Err(moved.error);
    }
    if !buf.HasRemaining() {
      return Err(IO);
    }
    r := FindChunkIntended(id, buf);
  }

  /**
   * `readFormat`. The format code goes into a local variable that shadows
   * the field, so the decoder's `format` stays 0.
   */
  method ReadFormat(buf: ByteBuffer, decoder: WAVEDecoder) returns (r: Result<()>)
    requires buf.Valid()
    modifies buf, decoder
    ensures buf.Valid() && buf.limit == old(buf.limit)
    ensures r == Done(FormatSpec(buf.content, old(buf.limit), old(buf.position)))
    ensures r.Ok? ==> (
      var spec := FormatSpec(buf.content, old(buf.limit), old(buf.position)).value;
      buf.position == spec.1 && decoder.Info() == spec.0
      && decoder.format == old(decoder.format) && decoder.data == old(decoder.data))
  {
    SkipWraps(buf.position, 4, buf.limit);
    var skipped := buf.SetPosition(ToInt32(buf.position + 4));
    if skipped.Err? {
      return Err(skipped.error);
    }
    var format := buf.GetShort();
    if format.Err? {
      return Err(format.error);
    }
    if format.value != PCM {
      return Err(IO);
    }
    r := ReadFields(buf, decoder);
  }

  /** The rest of `readFormat`: each field read into the decoder in turn. */
  method ReadFields(buf: ByteBuffer, decoder: WAVEDecoder) returns (r: Result<()>)
    requires buf.Valid()
    modifies buf, decoder
    ensures buf.Valid() && buf.limit == old(buf.limit)
    ensures r == Done(Fields(buf.content, old(buf.limit), old(buf.position)))
    ensures r.Ok? ==> (
      var spec := Fields(buf.content, old(buf.limit), old(buf.position)).value;
      buf.position == spec.1 && decoder.Info() == spec.0
      && decoder.format == old(decoder.format) && decoder.data == old(decoder.data))
  {
    var channels := buf.GetShort();
    if channels.Err? {
      return Err(channels.error);
    }
    decoder.numChannels := channels.value;
    var sampleRate := buf.GetInt();
    if sampleRate.Err? {
      return Err(sampleRate.error);
    }
    decoder.sampleRate := sampleRate.value;
    var byteRate := buf.GetInt();
    if byteRate.Err? {
      return Err(byteRate.error);
    }
    decoder.byteRate := byteRate.value;
    var blockAlign := buf.GetShort();
    if blockAlign.Err? {
      return Err(blockAlign.error);
    }
    decoder.blockAlign := blockAlign.value;
    var bits := buf.GetShort();
    if bits.Err? {
      return Err(bits.error);
    }
    decoder.bitsPerSample := bits.value;
    return Ok(());
  }

  /**
   * `readData`: the size, a limit that many bytes on, a copy of those bytes
   * (`createByteBuffer(size).put(in).flip()`), and the limit back at the
   * capacity.
   */
  method ReadData(buf: ByteBuffer, decoder: WAVEDecoder) returns (r: Result<()>)
    requires buf.Valid()
    modifies buf, decoder
    ensures buf.Valid()
    ensures r == Done(DataSpec(buf.content, old(buf.limit), old(buf.position)))
    ensures r.Ok? ==> (
      var spec := DataSpec(buf.content, old(buf.limit), old(buf.position)).value;
      buf.position == spec.1 && buf.limit == |buf.content| && decoder.data == Some(spec.0)
      && decoder.Info() == old(decoder.Info()) && decoder.format == old(decoder.format))
  {
    var size := buf.GetInt();
    if size.Err? {
      return Err(size.error);
    }
    var end := buf.position + size.value;
    if end > INT_MAX {
      WrapPastMax(end);
    } else if end >= -0x8000_0000 {
      WrapId(end, 0x1_0000_0000);
    }
    var limited := buf.SetLimit(ToInt32(end));
    if limited.Err? {
      return Err(limited.error);
    }
    if size.value < 0 {
      return Err(IllegalArgument);
    }
    var copy := buf.Drain();
    decoder.data := Some(copy);
    var restored := buf.SetLimit(|buf.content|);
    return Ok(());
  }

  /**
   * `decode`: the steps in order on a buffer holding the whole file, each
   * `findChunk` starting with room for `depth` further calls.
   */
  method Decode(file: seq<byte>, depth: nat) returns (r: Result<WAVEDecoder>)
    requires |file| <= INT_MAX
    ensures r.Err? ==> DecodeSpec(file, depth) == Err(r.error)
    ensures r.Ok? ==> (fresh(r.value) && r.value.data.Some? && r.value.format == 0
      && DecodeSpec(file, depth) == Ok(Sound(r.value.Info(), r.value.data.value)))
  {
    var buf := new ByteBuffer(file);
    var header := CheckHeader(buf);
    if header.Err? {
      return Err(header.error);
    }
    var info := new WAVEDecoder();
    var fmt := FindChunk(FMT, buf, depth);
    if fmt.Err? {
      return Err(fmt.error);
    }
    var format := ReadFormat(buf, info);
    if format.Err? {
      return Err(format.error);
    }
    var data := FindChunk(DATA, buf, depth);
    if data.Err? {
      return Err(data.error);
    }
    var samples := ReadData(buf, info);
    if samples.Err? {
      return Err(samples.error);
    }
    return Ok(info);
  }
}
