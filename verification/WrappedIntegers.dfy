/** Signed integers of the two native widths, with the wrap-around of a truncating
    assignment. */
module WrappedIntegers {

  datatype Width = Int8 | Int16

  /** The number of values, and half of it: 2^n and 2^(n-1). */
  function Modulus(bits: Width): int {
    match bits
    case Int8 => 256
    case Int16 => 65536
  }

  function Half(bits: Width): int {
    match bits
    case Int8 => 128
    case Int16 => 32768
  }

  function Wrap(x: int, bits: Width): int {
    match bits
    case Int8 => (x + 128) % 256 - 128
    case Int16 => (x + 32768) % 65536 - 32768
  }

  predicate Fits(x: int, bits: Width) {
    -Half(bits) <= x < Half(bits)
  }

  /** The wrap of `x` is the one value in range that differs from it by a multiple of the
      modulus. */
  lemma WrapIsTheRepresentative(x: int, v: int, k: int, bits: Width)
    requires Fits(v, bits) && x == v + k * Modulus(bits)
    ensures Wrap(x, bits) == v
  {
    match bits {
      case Int8 => Representative8(v, k);
      case Int16 => Representative16(v, k);
    }
  }

  lemma Representative8(v: int, k: int)
    requires -128 <= v < 128
    ensures (v + k * 256 + 128) % 256 - 128 == v
  {
  }

  lemma Representative16(v: int, k: int)
    requires -32768 <= v < 32768
    ensures (v + k * 65536 + 32768) % 65536 - 32768 == v
  {
  }

  lemma WrapQuotient(x: int, bits: Width) returns (k: int)
    ensures Fits(Wrap(x, bits), bits) && x == Wrap(x, bits) + k * Modulus(bits)
  {
    k := (x + Half(bits)) / Modulus(bits);
  }

  lemma WrapInRange(x: int, bits: Width)
    ensures Fits(Wrap(x, bits), bits)
    ensures Fits(x, bits) <==> Wrap(x, bits) == x
  {
  }

  lemma WrapShift(x: int, k: int, bits: Width)
    ensures Wrap(x + k * Modulus(bits), bits) == Wrap(x, bits)
  {
    hide Wrap;
    var j := WrapQuotient(x, bits);
    WrapIsTheRepresentative(x + k * Modulus(bits), Wrap(x, bits), j + k, bits);
  }

  /** Wrapping an operand early does not change the wrap of a sum. */
  lemma WrapAdd(a: int, b: int, bits: Width)
    ensures Wrap(Wrap(a, bits) + b, bits) == Wrap(a + b, bits) == Wrap(a + Wrap(b, bits), bits)
  {
    var ka := WrapQuotient(a, bits);
    var kb := WrapQuotient(b, bits);
    WrapShift(Wrap(a, bits) + b, ka, bits);
    WrapShift(a + Wrap(b, bits), kb, bits);
  }

  /** Nor does it change the wrap of a product. */
  lemma WrapMul(a: int, b: int, bits: Width)
    ensures Wrap(Wrap(a, bits) * b, bits) == Wrap(a * b, bits)
  {
    var k := WrapQuotient(a, bits);
    MulShift(Wrap(a, bits), k, Modulus(bits), b);
    WrapShift(Wrap(a, bits) * b, k * b, bits);
  }

  lemma MulShift(w: int, k: int, m: int, b: int)
    ensures (w + k * m) * b == w * b + (k * b) * m
  {
    assert (w + k * m) * b == w * b + (k * m) * b;
    assert (k * m) * b == (k * b) * m;
  }

  lemma WrapSum(a: int, a': int, b: int, b': int, bits: Width)
    requires Wrap(a, bits) == Wrap(a', bits) && Wrap(b, bits) == Wrap(b', bits)
    ensures Wrap(a + b, bits) == Wrap(a' + b', bits)
    ensures Wrap(a - b, bits) == Wrap(a' - b', bits)
  {
    hide Wrap;
    WrapAdd(a, b, bits);
    WrapAdd(a', b', bits);
    WrapAdd(Wrap(a, bits), b, bits);
    WrapAdd(Wrap(a, bits), b', bits);
    WrapNeg(b, b', bits);
    WrapAdd(a, -b, bits);
    WrapAdd(a', -b', bits);
    WrapAdd(Wrap(a, bits), -b, bits);
    WrapAdd(Wrap(a, bits), -b', bits);
  }

  lemma WrapNeg(b: int, b': int, bits: Width)
    requires Wrap(b, bits) == Wrap(b', bits)
    ensures Wrap(-b, bits) == Wrap(-b', bits)
  {
    hide Wrap;
    WrapMul(b, -1, bits);
    WrapMul(b', -1, bits);
  }
}
