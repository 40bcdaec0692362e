/** Machine arithmetic as the firmware's compilers perform it: fixed widths,
    two's-complement conversions, division that truncates toward zero. */
module Arith {

  type Byte = x: int | 0 <= x < 0x100
  type Word16 = x: int | 0 <= x < 0x1_0000
  type Word32 = x: int | 0 <= x < 0x1_0000_0000
  type Int16 = x: int | -0x8000 <= x < 0x8000
  type Int32 = x: int | -0x8000_0000 <= x < 0x8000_0000

  datatype Option<+T> = None | Some(value: T)

  /** The value a 16-bit signed variable holds after being assigned `x`. */
  function ToInt16(x: int): Int16 {
    var m := x % 0x1_0000;
    if m < 0x8000 then m else m - 0x1_0000
  }

  /** The value a 32-bit signed variable holds after being assigned `x`. */
  function ToInt32(x: int): Int32 {
    var m := x % 0x1_0000_0000;
    if m < 0x8000_0000 then m else m - 0x1_0000_0000
  }

  function Wrap32(x: int): Word32 {
    x % 0x1_0000_0000
  }

  /** C division: the quotient is rounded toward zero. */
  function TruncDiv(a: int, b: int): int
    requires b > 0
  {
    if a >= 0 then a / b else -((-a) / b)
  }

  function Abs(x: int): nat {
    if x < 0 then -x else x
  }

  function Min(a: int, b: int): int {
    if a < b then a else b
  }

  function Max(a: int, b: int): int {
    if a > b then a else b
  }

  function Clamp(x: int, lo: int, hi: int): int
    requires lo <= hi
  {
    if x < lo then lo else if x > hi then hi else x
  }

  /** The k-th bit of a byte. */
  predicate Bit(v: Byte, k: nat)
    requires k < 8
  {
    (v / [1, 2, 4, 8, 16, 32, 64, 128][k]) % 2 == 1
  }

  lemma TruncDivBounds(a: int, b: int)
    requires b > 0
    ensures Abs(TruncDiv(a, b)) * b <= Abs(a) < (Abs(TruncDiv(a, b)) + 1) * b
    ensures a >= 0 ==> TruncDiv(a, b) >= 0
    ensures a <= 0 ==> TruncDiv(a, b) <= 0
  {
  }

  lemma WrapAdd(a: int, b: int)
    ensures Wrap32(Wrap32(a) + Wrap32(b)) == Wrap32(a + b) == Wrap32(Wrap32(a) + b)
  {
    var k, l := a / 0x1_0000_0000, b / 0x1_0000_0000;
    assert a == 0x1_0000_0000 * k + Wrap32(a) && b == 0x1_0000_0000 * l + Wrap32(b);
    WrapShift(Wrap32(a) + b, k);
    WrapShift(Wrap32(a) + Wrap32(b), l);
  }

  lemma WrapShift(x: int, k: int)
    ensures Wrap32(0x1_0000_0000 * k + x) == Wrap32(x)
  {
  }

  /** Differences of a wrapped 32-bit clock are true elapsed times modulo 2^32, and exact below that. */
  lemma WrappedElapsed(since: nat, now: nat)
    requires since <= now
    ensures Wrap32(Wrap32(now) - Wrap32(since)) == Wrap32(now - since)
    ensures now - since < 0x1_0000_0000 ==> Wrap32(Wrap32(now) - Wrap32(since)) == now - since
  {
    var k, rest: int := since / 0x1_0000_0000, Wrap32(since);
    assert -rest == 0x1_0000_0000 * k - since;
    WrapAdd(now, -rest);
    WrapShift(now - since, k);
  }
}
