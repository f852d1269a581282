/** Failure-aware result types shared by every module. */
module Wrappers {
  datatype Option<+T> = None | Some(value: T)

  datatype Result<+T, +E> = Ok(value: T) | Err(error: E) {
    predicate IsFailure() {
      Err?
    }

    function PropagateFailure<U>(): Result<U, E>
      requires Err?
    {
      Err(error)
    }

    function Extract(): T
      requires Ok?
    {
      value
    }
  }
}

/** Bytes, their wrapping arithmetic, and the little- and big-endian words read from a page. */
module Bytes {
  type Byte = b: int | 0 <= b < 256

  /** The byte that a `u8` holds after wrapping arithmetic has produced the integer `x`. */
  function Wrap(x: int): Byte {
    x % 256
  }

  function WrappingAdd(x: int, y: int): Byte {
    Wrap(x + y)
  }

  function WrappingSub(x: int, y: int): Byte {
    Wrap(x - y)
  }

  function WrappingMul(x: int, y: int): Byte {
    Wrap(x * y)
  }

  function Power2(n: nat): (p: nat)
    ensures p > 0
  {
    if n == 0 then 1 else 2 * Power2(n - 1)
  }

  lemma WrapOfByte(b: Byte)
    ensures Wrap(b) == b
  {
  }

  lemma WrapAdd(x: int, y: int)
    ensures Wrap(Wrap(x) + y) == Wrap(x + y)
  {
  }

  lemma WrapMinus(x: int, y: int)
    ensures Wrap(x - Wrap(y)) == Wrap(x - y)
  {
  }

  /** Adding and then subtracting a byte changes nothing. */
  lemma AddThenSubtract(b: Byte, y: int)
    ensures Wrap(Wrap(b + y) - y) == b
  {
    WrapAdd(b + y, -y);
    WrapOfByte(b);
    hide Wrap;
  }

  lemma WrapMultiple(k: int, x: int)
    ensures Wrap(256 * k + x) == Wrap(x)
  {
  }

  lemma WrapMulParts(x: int, q: int, r: int)
    ensures Wrap(x * (256 * q + r)) == Wrap(x * r)
  {
    assert x * (256 * q + r) == 256 * (x * q) + x * r;
    WrapMultiple(x * q, x * r);
  }

  lemma WrapMul(x: int, y: int)
    ensures Wrap(x * Wrap(y)) == Wrap(x * y)
  {
    WrapMulParts(x, y / 256, y % 256);
  }

  function U16Le(lo: Byte, hi: Byte): (r: int)
    ensures 0 <= r < 0x1_0000
  {
    lo + 256 * hi
  }

  function U32Le(b0: Byte, b1: Byte, b2: Byte, b3: Byte): (r: int)
    ensures 0 <= r < 0x1_0000_0000
  {
    b0 + 256 * b1 + 0x1_0000 * b2 + 0x100_0000 * b3
  }

  /** The two bytes of `x.to_le_bytes()` for a `u16`. */
  function U16ToLe(x: int): (r: seq<Byte>)
    requires 0 <= x < 0x1_0000
    ensures |r| == 2 && U16Le(r[0], r[1]) == x
  {
    [x % 256, x / 256]
  }

  /** The four bytes of `x.to_le_bytes()` for a `u32`. */
  function U32ToLe(x: int): (r: seq<Byte>)
    requires 0 <= x < 0x1_0000_0000
    ensures |r| == 4 && U32Le(r[0], r[1], r[2], r[3]) == x
  {
    var (lo, hi) := (x % 0x1_0000, x / 0x1_0000);
    U16ToLe(lo) + U16ToLe(hi)
  }

  /** Little-endian bytes, one by one. */
  lemma LittleEndian(x: int)
    requires 0 <= x < 0x1_0000_0000
    ensures U32ToLe(x) == [x % 256, x / 256 % 256, x / 65536 % 256, x / 16777216]
    ensures x < 65536 ==> U16ToLe(x) == [x % 256, x / 256]
  {
    var lo, hi := x % 65536, x / 65536;
    assert lo % 256 == x % 256 && lo / 256 == x / 256 % 256 by {
      assert x == 65536 * hi + lo && x / 256 == 256 * hi + lo / 256;
    }
    assert hi % 256 == x / 65536 % 256 && hi / 256 == x / 16777216;
  }
}
