/** The C# `int` type: 32-bit two's complement, with the unchecked
    (wrapping) arithmetic and the bitwise operators the model needs. */
module Int32 {

  const MinValue: int := -0x8000_0000
  const MaxValue: int := 0x7FFF_FFFF
  const Modulus: int := 0x1_0000_0000

  type Int = x: int | -0x8000_0000 <= x <= 0x7FFF_FFFF

  /** Unchecked conversion of a mathematical integer to `int`: keep the low
      32 bits and read them as a signed value (also what `(int)` does to a
      wider unsigned value). */
  function Wrap(x: int): (r: Int)
    ensures (r - x) % Modulus == 0
    ensures MinValue <= x <= MaxValue ==> r == x
  {
    (x - MinValue) % Modulus + MinValue
  }

  /** 2 to the power n. */
  function Pow2(n: nat): (r: nat)
    ensures r >= 1
  {
    if n == 0 then 1 else 2 * Pow2(n - 1)
  }

  /** The unsigned 32-bit pattern of a C# `int`. */
  function Bits(x: Int): (u: nat)
    ensures u < Modulus
    ensures (u - x) % Modulus == 0
  {
    if x >= 0 then x else x + Modulus
  }

  /** The C# `int` whose 32-bit pattern is `u`. */
  function FromBits(u: nat): (x: Int)
    requires u < Modulus
    ensures Bits(x) == u
  {
    if u <= MaxValue then u else u - Modulus
  }

  /** The value of the low `k` bits of `a`, that is, `a` modulo 2^k. */
  function LowBits(a: nat, k: nat): (r: nat)
  {
    if k == 0 then 0 else a % 2 + 2 * LowBits(a / 2, k - 1)
  }

  /** Bitwise AND of the low `n` bits of `a` and `b`, least significant bit first. */
  function AndBits(a: nat, b: nat, n: nat): nat
  {
    if n == 0 then 0 else (a % 2) * (b % 2) + 2 * AndBits(a / 2, b / 2, n - 1)
  }

  /** The number of bits in an `int`. */
  function Width(): (n: nat)
    ensures Pow2(n) == Modulus
  {
    Pow2Is32();
    32
  }

  /** C# `x & y` on `int`: the bit pattern of the result is the bitwise AND
      of the two patterns. */
  function And(x: Int, y: Int): (r: Int)
    ensures Bits(r) == AndBits(Bits(x), Bits(y), Width())
  {
    var u := AndBits(Bits(x), Bits(y), Width());
    AndBitsBound(Bits(x), Bits(y), Width());
    FromBits(u)
  }

  /** C# `~x` on `int`: every bit flipped, which in two's complement is `-x - 1`. */
  function Not(x: Int): (r: Int)
    ensures Bits(r) == Modulus - 1 - Bits(x)
  {
    var y: int := x;
    -y - 1
  }

  lemma Pow2Is32()
    ensures Pow2(32) == Modulus
  {
    assert Pow2(8) == 0x100;
    assert Pow2(16) == 0x1_0000;
    assert Pow2(24) == 0x100_0000;
  }

  lemma {:induction false} Pow2Monotone(k: nat, n: nat)
    requires k <= n
    ensures Pow2(k) <= Pow2(n)
  {
    if k < n {
      Pow2Monotone(k, n - 1);
    }
  }

  lemma {:induction false} AndBitsBound(a: nat, b: nat, n: nat)
    ensures AndBits(a, b, n) < Pow2(n)
  {
    if n > 0 {
      AndBitsBound(a / 2, b / 2, n - 1);
    }
  }

  /** AND with a pattern of all ones keeps every bit. */
  lemma {:induction false} AndAllOnes(a: nat, n: nat)
    requires a < Pow2(n)
    ensures AndBits(a, Pow2(n) - 1, n) == a
  {
    if n > 0 {
      assert (Pow2(n) - 1) % 2 == 1;
      assert (Pow2(n) - 1) / 2 == Pow2(n - 1) - 1;
      AndAllOnes(a / 2, n - 1);
    }
  }

  /** AND with a pattern whose low `k` bits are zero and the rest ones clears
      exactly the low `k` bits of `a`. */
  lemma {:induction false} AndHighMask(a: nat, n: nat, k: nat)
    requires k <= n && a < Pow2(n)
    ensures Pow2(k) <= Pow2(n)
    ensures AndBits(a, Pow2(n) - Pow2(k), n) == a - LowBits(a, k)
  {
    Pow2Monotone(k, n);
    if k == 0 {
      AndAllOnes(a, n);
    } else {
      var m := Pow2(n) - Pow2(k);
      assert m % 2 == 0 && m / 2 == Pow2(n - 1) - Pow2(k - 1);
      AndHighMask(a / 2, n - 1, k - 1);
    }
  }

  /** The low two bits are the remainder modulo 4. */
  lemma LowTwoBits(a: nat)
    ensures LowBits(a, 2) == a % 4
  {
    assert LowBits(a / 2, 1) == (a / 2) % 2;
    assert a % 4 == a % 2 + 2 * ((a / 2) % 2);
  }

  /** The low three bits are the remainder modulo 8. */
  lemma LowThreeBits(a: nat)
    ensures LowBits(a, 3) == a % 8
  {
    LowTwoBits(a / 2);
    assert a % 8 == a % 2 + 2 * ((a / 2) % 4);
  }
}
