/** Bytes and byte strings, shared by the protocol models. */
module Bytes {

  type Byte = b: int | 0 <= b < 256
  type Bytes = seq<Byte>

  /** Bitwise exclusive or, bit by bit from the least significant end. */
  function BitXor(a: nat, b: nat): nat {
    if a == 0 then b
    else if b == 0 then a
    else 2 * BitXor(a / 2, b / 2) + (a % 2 + b % 2) % 2
  }

  lemma {:induction false} BitXorBound(a: nat, b: nat, n: nat)
    requires a < Power2(n) && b < Power2(n)
    ensures BitXor(a, b) < Power2(n)
  {
    if a == 0 || b == 0 {
    } else {
      BitXorBound(a / 2, b / 2, n - 1);
    }
  }

  function Power2(n: nat): nat {
    if n == 0 then 1 else 2 * Power2(n - 1)
  }

  /** Only zero leaves a number unchanged under exclusive or. */
  lemma {:induction false} BitXorFixesIff(a: nat, b: nat)
    ensures BitXor(a, b) == a <==> b == 0
  {
    if a == 0 || b == 0 {
    } else {
      BitXorFixesIff(a / 2, b / 2);
    }
  }

  function XorByte(a: Byte, b: Byte): Byte {
    assert Power2(8) == 256 by {
      assert Power2(4) == 16;
    }
    BitXorBound(a, b, 8);
    BitXor(a, b)
  }

  /** Bit `k` of a number, from the least significant one. */
  function Bit(n: nat, k: nat): nat {
    if k == 0 then n % 2 else Bit(n / 2, k - 1)
  }

  lemma {:induction false} ZeroHasNoBits(k: nat)
    ensures Bit(0, k) == 0
  {
    if k == 0 {
    } else {
      ZeroHasNoBits(k - 1);
    }
  }

  lemma {:induction false} BitXorAddsBits(a: nat, b: nat, k: nat)
    ensures Bit(BitXor(a, b), k) == (Bit(a, k) + Bit(b, k)) % 2
  {
    if a == 0 || b == 0 {
      ZeroHasNoBits(k);
      BitsAreBits(a, k);
      BitsAreBits(b, k);
    } else {
      var d := (a % 2 + b % 2) % 2;
      HalfAndLast(BitXor(a / 2, b / 2), d);
      assert BitXor(a, b) == 2 * BitXor(a / 2, b / 2) + d;
      if k == 0 {
      } else {
        BitXorAddsBits(a / 2, b / 2, k - 1);
      }
    }
  }

  lemma HalfAndLast(n: nat, d: nat)
    requires d < 2
    ensures (2 * n + d) / 2 == n && (2 * n + d) % 2 == d
  {
  }

  lemma {:induction false} BitsAreBits(n: nat, k: nat)
    ensures 0 <= Bit(n, k) <= 1
  {
    if k == 0 {
    } else {
      BitsAreBits(n / 2, k - 1);
    }
  }

  /** The exclusive or of two bytes has in every place the sum of their bits modulo two. */
  lemma XorByteAddsBits(a: Byte, b: Byte, k: nat)
    ensures Bit(XorByte(a, b), k) == (Bit(a, k) + Bit(b, k)) % 2
  {
    BitXorAddsBits(a, b, k);
  }

  /** A number is told by its bits. */
  lemma {:induction false} SameBitsSameNumber(a: nat, b: nat)
    requires forall k: nat :: Bit(a, k) == Bit(b, k)
    ensures a == b
    decreases a + b
  {
    assert Bit(a, 0) == Bit(b, 0);
    if a == b {
    } else {
      forall k: nat
        ensures Bit(a / 2, k) == Bit(b / 2, k)
      {
        assert Bit(a, k + 1) == Bit(b, k + 1);
      }
      SameBitsSameNumber(a / 2, b / 2);
    }
  }

  lemma ConcatAssoc<T>(a: seq<T>, b: seq<T>, c: seq<T>)
    ensures (a + b) + c == a + (b + c)
  {
  }

  function Concat<T>(ss: seq<seq<T>>): seq<T> {
    if ss == [] then [] else ss[0] + Concat(ss[1..])
  }

  lemma {:induction false} ConcatAppend<T>(a: seq<seq<T>>, b: seq<seq<T>>)
    ensures Concat(a + b) == Concat(a) + Concat(b)
  {
    if a == [] {
      assert a + b == b;
    } else {
      ConcatAppend(a[1..], b);
      assert (a + b)[1..] == a[1..] + b;
      ConcatAssoc(a[0], Concat(a[1..]), Concat(b));
    }
  }
}
