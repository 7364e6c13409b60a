/** Bytes, their exclusive or, and two-byte numbers in network order. */
module Bytes {
  import opened Bits

  type Byte = x: int | 0 <= x < 256

  /** The exclusive or of the lowest `n` bits. */
  function XorBits(a: nat, b: nat, n: nat): (x: nat)
    ensures x < Pow2(n)
  {
    if n == 0 then 0 else 2 * XorBits(a / 2, b / 2, n - 1) + (a % 2 + b % 2) % 2
  }

  /** Bit `i` of a number, from the lowest. */
  function Bit(x: nat, i: nat): nat {
    if i == 0 then x % 2 else Bit(x / 2, i - 1)
  }

  /** A bit is set exactly if the two bits differ. */
  lemma {:induction false} XorBitsMeaning(a: nat, b: nat, n: nat, i: nat)
    requires i < n
    ensures Bit(XorBits(a, b, n), i) == if Bit(a, i) == Bit(b, i) then 0 else 1
  {
    var y, r := XorBits(a / 2, b / 2, n - 1), (a % 2 + b % 2) % 2;
    Halves(y, r);
    if i != 0 {
      XorBitsMeaning(a / 2, b / 2, n - 1, i - 1);
    }
  }

  lemma XorMeaning(a: Byte, b: Byte, i: nat)
    requires i < 8
    ensures Bit(Xor(a, b), i) == if Bit(a, i) == Bit(b, i) then 0 else 1
  {
    hide XorBits, Bit;
    XorBitsMeaning(a, b, 8, i);
  }

  lemma ParityTwice(a: nat, b: nat)
    ensures ((a % 2 + b % 2) % 2 + b % 2) % 2 == a % 2
  {
    assert a % 2 == 0 || a % 2 == 1;
    assert b % 2 == 0 || b % 2 == 1;
  }

  lemma Halves(y: nat, r: nat)
    requires r < 2
    ensures (2 * y + r) / 2 == y && (2 * y + r) % 2 == r
  {
  }

  lemma {:induction false} XorBitsTwice(a: nat, b: nat, n: nat)
    requires a < Pow2(n)
    ensures XorBits(XorBits(a, b, n), b, n) == a
  {
    if n != 0 {
      var y, r := XorBits(a / 2, b / 2, n - 1), (a % 2 + b % 2) % 2;
      XorBitsTwice(a / 2, b / 2, n - 1);
      XorStep(a, b, n, y, r);
      Halves(y, r);
      ParityTwice(a, b);
      XorStep(2 * y + r, b, n, a / 2, a % 2);
      hide XorBits, Pow2;
    }
  }

  /** One bit more. */
  lemma XorStep(a: nat, b: nat, n: nat, y: nat, r: nat)
    requires n > 0 && XorBits(a / 2, b / 2, n - 1) == y && (a % 2 + b % 2) % 2 == r
    ensures XorBits(a, b, n) == 2 * y + r
  {
  }

  lemma Pow8()
    ensures Pow2(8) == 256
  {
    assert Pow2(4) == 16;
  }

  function Xor(a: Byte, b: Byte): Byte {
    Pow8();
    XorBits(a, b, 8)
  }

  lemma XorTwice(a: Byte, b: Byte)
    ensures Xor(Xor(a, b), b) == a
  {
    hide XorBits, Pow2;
    Pow8();
    XorBitsTwice(a, b, 8);
  }

  /** Two bytes in network order. */
  function U16(hi: Byte, lo: Byte): (n: nat)
    ensures n < 0x1_0000 && n / 256 == hi && n % 256 == lo
  {
    256 * hi + lo
  }

  function U16Bytes(n: nat): (bytes: seq<Byte>)
    requires n < 0x1_0000
    ensures |bytes| == 2 && U16(bytes[0], bytes[1]) == n
  {
    [n / 256, n % 256]
  }

  lemma U16Unique(hi: Byte, lo: Byte)
    ensures U16Bytes(U16(hi, lo)) == [hi, lo]
  {
  }
}
