/** Exclusive or, the shift register and the checksums built on it, on natural numbers of a given width. */
module ShiftRegister {
  import opened Arith

  function Pow2(n: nat): (p: nat)
    ensures p > 0
  {
    if n == 0 then 1 else 2 * Pow2(n - 1)
  }

  /** Exclusive or of the lowest `n` bits. */
  function Xor(a: nat, b: nat, n: nat): (x: nat)
    ensures x < Pow2(n)
  {
    if n == 0 then 0 else (a + b) % 2 + 2 * Xor(a / 2, b / 2, n - 1)
  }

  lemma {:induction false} XorInjective(a: nat, b: nat, c: nat, n: nat)
    requires a < Pow2(n) && b < Pow2(n) && a != b
    ensures Xor(a, c, n) != Xor(b, c, n)
    decreases n
  {
    Parity(a, c, n);
    Parity(b, c, n);
    if a % 2 == b % 2 {
      XorInjective(a / 2, b / 2, c / 2, n - 1);
      SameParity(a, b, c);
    } else {
      OtherParity(a, b, c);
    }
  }

  lemma SameParity(a: nat, b: nat, c: nat)
    requires a % 2 == b % 2
    ensures (a + c) % 2 == (b + c) % 2
  {
  }

  lemma OtherParity(a: nat, b: nat, c: nat)
    requires a % 2 != b % 2
    ensures (a + c) % 2 != (b + c) % 2
  {
  }

  lemma {:induction false} XorCommutes(a: nat, b: nat, n: nat)
    ensures Xor(a, b, n) == Xor(b, a, n)
    decreases n
  {
    if n > 0 { XorCommutes(a / 2, b / 2, n - 1); }
  }

  /** One shift: the bit shifted out decides whether the polynomial is added. */
  function ShiftStep(c: nat, polynomial: nat, n: nat): (next: nat)
    requires 0 < n && c < Pow2(n)
    ensures next < Pow2(n)
  {
    if c >= Pow2(n - 1) then Xor(2 * c - Pow2(n), polynomial, n) else 2 * c
  }

  function Shifts(c: nat, polynomial: nat, n: nat, count: nat): (next: nat)
    requires 0 < n && c < Pow2(n)
    ensures next < Pow2(n)
  {
    if count == 0 then c else ShiftStep(Shifts(c, polynomial, n, count - 1), polynomial, n)
  }

  /** The register shifted in a loop. */
  method RunShifts(c: nat, polynomial: nat, n: nat, count: nat) returns (next: nat)
    requires 0 < n && c < Pow2(n)
    ensures next == Shifts(c, polynomial, n, count)
  {
    next := c;
    for bit := 0 to count
      invariant next == Shifts(c, polynomial, n, bit)
    {
      next := ShiftStep(next, polynomial, n);
    }
  }

  /** With an odd polynomial no two register contents shift to the same one. */
  lemma ShiftStepInjective(a: nat, b: nat, polynomial: nat, n: nat)
    requires 0 < n && a < Pow2(n) && b < Pow2(n) && a != b && polynomial % 2 == 1
    ensures ShiftStep(a, polynomial, n) != ShiftStep(b, polynomial, n)
  {
    hide Xor;
    if a >= Pow2(n - 1) && b >= Pow2(n - 1) {
      XorInjective(2 * a - Pow2(n), 2 * b - Pow2(n), polynomial, n);
    } else if a >= Pow2(n - 1) {
      Parity(2 * a - Pow2(n), polynomial, n);
    } else if b >= Pow2(n - 1) {
      Parity(2 * b - Pow2(n), polynomial, n);
    }
  }

  lemma Parity(a: nat, b: nat, n: nat)
    requires n > 0
    ensures Xor(a, b, n) % 2 == (a + b) % 2
  {
  }

  lemma {:induction false} ShiftsInjective(a: nat, b: nat, polynomial: nat, n: nat, count: nat)
    requires 0 < n && a < Pow2(n) && b < Pow2(n) && a != b && polynomial % 2 == 1
    ensures Shifts(a, polynomial, n, count) != Shifts(b, polynomial, n, count)
    decreases count
  {
    if count > 0 {
      ShiftsInjective(a, b, polynomial, n, count - 1);
      ShiftStepInjective(Shifts(a, polynomial, n, count - 1), Shifts(b, polynomial, n, count - 1), polynomial, n);
    }
  }

  // ----- checksums -----

  /** A cyclic redundancy check of at least eight bits, most significant bit first. */
  datatype Code = Code(width: nat, polynomial: nat) {
    predicate Valid() { width >= 8 && polynomial % 2 == 1 }
  }

  /** The register with a byte added to its top eight bits. */
  function Mixed(code: Code, c: nat, value: Byte): (mixed: nat)
    requires code.Valid()
    ensures mixed < Pow2(code.width)
  {
    Xor(c, value * Pow2(code.width - 8), code.width)
  }

  /** The register after one more byte. */
  function Absorb(code: Code, c: nat, value: Byte): (next: nat)
    requires code.Valid()
    ensures next < Pow2(code.width)
  {
    Shifts(Mixed(code, c, value), code.polynomial, code.width, 8)
  }

  function AbsorbAll(code: Code, c: nat, data: seq<Byte>): (next: nat)
    requires code.Valid() && c < Pow2(code.width)
    ensures next < Pow2(code.width)
    decreases |data|
  {
    if data == [] then c else AbsorbAll(code, Absorb(code, c, data[0]), data[1..])
  }

  lemma {:induction false} Pow2Sum(m: nat, n: nat)
    ensures Pow2(m + n) == Pow2(m) * Pow2(n)
    decreases m
  {
    if m > 0 {
      Pow2Sum(m - 1, n);
      assert Pow2(m) * Pow2(n) == 2 * (Pow2(m - 1) * Pow2(n));
    }
  }

  lemma SmallerProduct(a: nat, b: nat, unit: nat)
    requires a < b && unit > 0
    ensures a * unit < b * unit
  {
    Apart(b - a, unit);
    assert b * unit - a * unit == (b - a) * unit;
  }

  lemma ShiftedByte(width: nat, value: Byte)
    requires width >= 8
    ensures value * Pow2(width - 8) < Pow2(width)
  {
    Pow2Sum(8, width - 8);
    assert Pow2(8) == 0x100;
    hide Pow2;
    SmallerProduct(value, 0x100, Pow2(width - 8));
  }

  lemma Apart(d: nat, unit: nat)
    requires d > 0
    ensures d * unit >= unit
  {
    assert d * unit == (d - 1) * unit + unit;
  }

  lemma ScaledDiffer(a: nat, b: nat, unit: nat)
    requires a != b && unit > 0
    ensures a * unit != b * unit
  {
    if a < b { Apart(b - a, unit); } else { Apart(a - b, unit); }
    assert a * unit - b * unit == (a - b) * unit && b * unit - a * unit == (b - a) * unit;
  }

  /** A changed byte changes the register ... */
  lemma AbsorbDetectsByte(code: Code, c: nat, a: Byte, b: Byte)
    requires code.Valid() && a != b
    ensures Absorb(code, c, a) != Absorb(code, c, b)
  {
    hide Xor, Shifts, Pow2;
    var n, unit := code.width, Pow2(code.width - 8);
    ShiftedByte(n, a);
    ShiftedByte(n, b);
    ScaledDiffer(a, b, unit);
    XorCommutes(c, a * unit, n);
    XorCommutes(c, b * unit, n);
    XorInjective(a * unit, b * unit, c, n);
    ShiftsInjective(Mixed(code, c, a), Mixed(code, c, b), code.polynomial, n, 8);
  }

  /** ... and a changed register stays changed. */
  lemma AbsorbKeepsDifference(code: Code, c: nat, d: nat, value: Byte)
    requires code.Valid() && c < Pow2(code.width) && d < Pow2(code.width) && c != d
    ensures Absorb(code, c, value) != Absorb(code, d, value)
  {
    hide Xor, Shifts;
    XorInjective(c, d, value * Pow2(code.width - 8), code.width);
    ShiftsInjective(Mixed(code, c, value), Mixed(code, d, value), code.polynomial, code.width, 8);
  }

  lemma {:induction false} AbsorbAllKeepsDifference(code: Code, c: nat, d: nat, data: seq<Byte>)
    requires code.Valid() && c < Pow2(code.width) && d < Pow2(code.width) && c != d
    ensures AbsorbAll(code, c, data) != AbsorbAll(code, d, data)
    decreases |data|
  {
    hide Absorb;
    if data != [] {
      AbsorbKeepsDifference(code, c, d, data[0]);
      AbsorbAllKeepsDifference(code, Absorb(code, c, data[0]), Absorb(code, d, data[0]), data[1..]);
    }
  }

  lemma {:induction false} AbsorbAllConcat(code: Code, c: nat, a: seq<Byte>, b: seq<Byte>)
    requires code.Valid() && c < Pow2(code.width)
    ensures AbsorbAll(code, c, a + b) == AbsorbAll(code, AbsorbAll(code, c, a), b)
    decreases |a|
  {
    hide Absorb;
    if a == [] {
      assert a + b == b;
    } else {
      assert (a + b)[1..] == a[1..] + b;
      AbsorbAllConcat(code, Absorb(code, c, a[0]), a[1..], b);
    }
  }

  /** Any change confined to one byte of a message changes the register. */
  lemma AbsorbAllDetectsOneByte(code: Code, c: nat, data: seq<Byte>, k: nat, x: Byte)
    requires code.Valid() && c < Pow2(code.width) && k < |data| && x != data[k]
    ensures AbsorbAll(code, c, data[k := x]) != AbsorbAll(code, c, data)
  {
    hide Absorb;
    var before, after := data[..k], data[k + 1..];
    assert data == before + ([data[k]] + after);
    assert data[k := x] == before + ([x] + after);
    AbsorbAllConcat(code, c, before, [data[k]] + after);
    AbsorbAllConcat(code, c, before, [x] + after);
    var d := AbsorbAll(code, c, before);
    AbsorbDetectsByte(code, d, data[k], x);
    assert ([data[k]] + after)[1..] == after && ([x] + after)[1..] == after;
    AbsorbAllKeepsDifference(code, Absorb(code, d, data[k]), Absorb(code, d, x), after);
  }

  /** One byte, shifted through in a loop. */
  method AbsorbByte(code: Code, c: nat, value: Byte) returns (next: nat)
    requires code.Valid()
    ensures next == Absorb(code, c, value)
  {
    next := RunShifts(Mixed(code, c, value), code.polynomial, code.width, 8);
  }
}
