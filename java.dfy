/**
 * Java primitive types and exceptions as the rest of the model sees them.
 *
 * A Java `byte`, `short`, `int` and `long` is the mathematical integer it
 * denotes, restricted to the type's two's complement range. Narrowing casts
 * and overflowing arithmetic are written out with `Wrap`. A thrown exception
 * is an `Err` carrying the exception's class.
 */
module Java {

  type byte = x: int | -0x80 <= x < 0x80
  type short = x: int | -0x8000 <= x < 0x8000
  type int32 = x: int | -0x8000_0000 <= x < 0x8000_0000
  type long = x: int | -0x8000_0000_0000_0000 <= x < 0x8000_0000_0000_0000

  const INT_MAX: int := 0x7FFF_FFFF

  /** The exception classes the core throws. */
  datatype Exception =
    | IndexOutOfBounds
    | IllegalArgument
    | IllegalState
    | Arithmetic
    | NullPointer
    | TypeNotRegistered
    | Serialization
    | UnsupportedOperation
    | IO
    | Timeout
    | ClientBadData
    | NegativeArraySize
    | StackOverflow
    | BufferUnderflow
    | NoSuchElement
    | Runtime

  /** A value or the exception that replaced it. */
  datatype Result<+T> = Ok(value: T) | Err(error: Exception)

  /** A possibly-null reference. */
  datatype Option<+T> = None | Some(value: T)

  /** The two's complement value of `x` in a type of `m` values. */
  function Wrap(x: int, m: int): (r: int)
    requires m > 0 && m % 2 == 0
    ensures -(m / 2) <= r < m / 2
  {
    (x + m / 2) % m - m / 2
  }

  /** The narrowing casts `(byte)`, `(short)`, `(int)` and `(long)`, and overflowing arithmetic. */
  function ToByte(x: int): byte { Wrap(x, 0x100) }
  function ToShort(x: int): short { Wrap(x, 0x1_0000) }
  function ToInt32(x: int): int32 { Wrap(x, 0x1_0000_0000) }
  function ToLong(x: int): long { Wrap(x, 0x1_0000_0000_0000_0000) }

  /** `b & 0xFF`: the unsigned value of a byte. */
  function U8(b: int): int { b % 0x100 }

  /** Bit `k` of the two's complement representation of `x` (`(x >> k) & 1`). */
  predicate Bit(x: int, k: nat) { (x / Pow2(k)) % 2 == 1 }

  function Pow2(k: nat): (r: nat)
    ensures r > 0
  {
    if k == 0 then 1 else 2 * Pow2(k - 1)
  }

  /** Java's `/` on ints truncates toward zero (Dafny's rounds the quotient down for positive divisors). */
  function TruncDiv(a: int, b: int): (q: int)
    requires b != 0
    ensures var r := a - b * q;
      Abs(r) < Abs(b) && (r == 0 || (r > 0) == (a > 0))
  {
    if a >= 0 then (if b > 0 then a / b else -(a / -b))
    else (if b > 0 then -(-a / b) else -a / -b)
  }

  function Abs(x: int): nat { if x < 0 then -x else x }

  /** Java's `%` on ints takes the sign of the dividend. */
  function TruncMod(a: int, b: int): int
    requires b != 0
  {
    a - b * TruncDiv(a, b)
  }

  /** `n` zero bytes, the content of a freshly allocated `byte[n]`. */
  function Zeros(n: nat): (r: seq<byte>)
    ensures |r| == n && forall k :: 0 <= k < n ==> r[k] == 0
  {
    seq(n, _ => 0)
  }

  // Arithmetic facts the codecs rest on.

  lemma MulAtLeast(m: int, d: int)
    requires m > 0 && d >= 1
    ensures m * d >= m
  {
  }

  /** Quotient and remainder are determined by `x == m * q + r` with `0 <= r < m`. */
  lemma DivModUnique(x: int, m: int, q: int, r: int)
    requires m > 0 && 0 <= r < m && x == m * q + r
    ensures x / m == q && x % m == r
  {
    var q0, r0 := x / m, x % m;
    assert m * (q - q0) == r0 - r;
    if q > q0 {
      MulAtLeast(m, q - q0);
    } else if q < q0 {
      MulAtLeast(m, q0 - q);
    }
  }

  /** Wrapping only depends on the value modulo `m`. */
  lemma WrapShift(x: int, k: int, m: int)
    requires m > 0 && m % 2 == 0
    ensures Wrap(x + k * m, m) == Wrap(x, m)
  {
    var a := x + m / 2;
    DivModUnique(a + k * m, m, a / m + k, a % m);
  }

  /** A value already in range is left alone. */
  lemma WrapId(x: int, m: int)
    requires m > 0 && m % 2 == 0 && -(m / 2) <= x < m / 2
    ensures Wrap(x, m) == x
  {
    DivModUnique(x + m / 2, m, 0, x + m / 2);
  }

  /** Wrapping an intermediate result of `x * c + u` changes nothing. */
  lemma WrapMulAdd(x: int, c: int, u: int, m: int)
    requires m > 0 && m % 2 == 0
    ensures Wrap(Wrap(x, m) * c + u, m) == Wrap(x * c + u, m)
  {
    var q := (x + m / 2) / m;
    assert Wrap(x, m) == x - m * q;
    assert Wrap(x, m) * c + u == x * c + u + (-q * c) * m;
    WrapShift(x * c + u, -q * c, m);
  }

  /** Wrapping is the identity modulo `m`. */
  lemma WrapMod(x: int, m: int)
    requires m > 0 && m % 2 == 0
    ensures Wrap(x, m) % m == x % m
  {
    var a := x + m / 2;
    var t := a % m;
    if t >= m / 2 {
      DivModUnique(x, m, a / m, t - m / 2);
      DivModUnique(t - m / 2, m, 0, t - m / 2);
    } else {
      DivModUnique(x, m, a / m - 1, t + m / 2);
      DivModUnique(t - m / 2, m, -1, t + m / 2);
    }
  }

  /** `Wrap` of a remainder is `Wrap` of the value. */
  lemma WrapOfMod(x: int, m: int)
    requires m > 0 && m % 2 == 0
    ensures Wrap(x % m, m) == Wrap(x, m)
  {
    WrapShift(x % m, x / m, m);
  }

  /** `Wrap` of a value in range modulo `m`, taken either way. */
  lemma WrapModId(x: int, m: int)
    requires m > 0 && m % 2 == 0 && -(m / 2) <= x < m / 2
    ensures Wrap(x % m, m) == x
  {
    WrapOfMod(x, m);
    WrapId(x, m);
  }

  /** The unsigned value of a byte. */
  lemma U8Value(b: byte)
    ensures U8(b) == if b < 0 then b + 0x100 else b
  {
    if b < 0 {
      DivModUnique(b, 0x100, -1, b + 0x100);
    } else {
      DivModUnique(b, 0x100, 0, b);
    }
  }

  /** `(byte)` then `& 0xFF` keeps the low eight bits. */
  lemma U8ToByte(x: int)
    ensures U8(ToByte(x)) == x % 0x100
  {
    WrapMod(x, 0x100);
  }

  /** `(byte)` undoes `& 0xFF`. */
  lemma ToByteU8(b: byte)
    ensures ToByte(U8(b)) == b
  {
    if b < 0 {
      DivModUnique(b, 0x100, -1, b + 0x100);
      WrapShift(b, 1, 0x100);
    } else {
      DivModUnique(b, 0x100, 0, b);
    }
    WrapId(b, 0x100);
  }

  // Bit facts for flags packed into integers.

  /** Flags packed lowest first into the low bits of a natural number. */
  function Pack(flags: seq<bool>): (r: nat)
    ensures r < Pow2(|flags|)
  {
    if flags == [] then 0 else (if flags[0] then 1 else 0) + 2 * Pack(flags[1..])
  }

  lemma BitOfDouble(x: int, b: int, i: nat)
    requires b == 0 || b == 1
    ensures Bit(b + 2 * x, i + 1) == Bit(x, i)
    ensures Bit(b + 2 * x, 0) == (b == 1)
  {
    DivModUnique(b + 2 * x, 2, x, b);
    DivModUnique(b + 2 * x, 1, b + 2 * x, 0);
    HalfPow(b + 2 * x, i);
  }

  lemma HalfPow(y: int, i: nat)
    ensures y / Pow2(i + 1) == (y / 2) / Pow2(i)
  {
    var p := Pow2(i);
    var q := (y / 2) / p;
    var t := (y / 2) % p;
    assert y == 2 * (y / 2) + y % 2;
    assert y / 2 == p * q + t;
    assert y == (2 * p) * q + (2 * t + y % 2);
    DivModUnique(y, 2 * p, q, 2 * t + y % 2);
  }

  lemma {:induction false} BitsOfPack(flags: seq<bool>, i: nat)
    requires i < |flags|
    ensures Bit(Pack(flags), i) == flags[i]
    decreases i
  {
    var b := if flags[0] then 1 else 0;
    BitOfDouble(Pack(flags[1..]), b, if i == 0 then 0 else i - 1);
    if i > 0 {
      BitsOfPack(flags[1..], i - 1);
    }
  }

  /** Moving a value by a multiple of `2^(i + 1)` keeps bit `i`. */
  lemma BitShift(x: int, k: int, i: nat)
    ensures Bit(x + k * Pow2(i + 1), i) == Bit(x, i)
  {
    var p := Pow2(i);
    assert Pow2(i + 1) == 2 * p;
    DivModUnique(x + k * (2 * p), p, x / p + 2 * k, x % p);
    DivModUnique(x / p + 2 * k, 2, (x / p) / 2 + k, (x / p) % 2);
  }

  lemma {:induction false} PowAdd(a: nat, b: nat)
    ensures Pow2(a) * Pow2(b) == Pow2(a + b)
  {
    if a > 0 {
      PowAdd(a - 1, b);
    }
  }

  /** Adding a multiple of 2^8 leaves bits 0 to 7 as they were. */
  lemma HighByteKeepsBit(high: int, p: int, i: nat)
    requires i < 8
    ensures Bit(high * 0x100 + p, i) == Bit(p, i)
  {
    assert Pow2(8) == 0x100;
    PowAdd(7 - i, i + 1);
    BitShift(p, high * Pow2(7 - i), i);
  }
}
