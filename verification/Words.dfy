/** Stock result types shared by every module. */
module Wrappers {
  datatype Option<+T> = None | Some(value: T)

  datatype Result<+T, +E> = Ok(value: T) | Err(error: E)
}

/** The fixed-width integers of the program and their saturating and wrapping arithmetic.
    A word is an `int` with an explicit range, so that every truncation is visible. */
module Words {
  const TWO_256: int := 0x1_0000000000000000_0000000000000000_0000000000000000_0000000000000000
  const MAX_U256: int := TWO_256 - 1
  const TWO_160: int := 0x1_00000000_0000000000000000_0000000000000000
  const TWO_64: int := 0x1_0000000000000000

  type U256 = x: int | 0 <= x < TWO_256
  type U64 = x: int | 0 <= x < TWO_64
  type U16 = x: int | 0 <= x < 0x1_0000
  type Byte = x: int | 0 <= x < 0x100
  type Address = x: int | 0 <= x < TWO_160
  type Bytes = seq<Byte>

  function Min(a: int, b: int): int {
    if a <= b then a else b
  }

  /** `U256::saturating_add` */
  function SatAdd(a: U256, b: U256): U256 {
    if a + b < TWO_256 then a + b else MAX_U256
  }

  /** `U256::saturating_sub` */
  function SatSub(a: U256, b: U256): U256 {
    if b <= a then a - b else 0
  }

  function Product(a: nat, b: nat): nat {
    a * b
  }

  /** `U256::saturating_mul` */
  function SatMul(a: U256, b: U256): U256 {
    if Product(a, b) < TWO_256 then Product(a, b) else MAX_U256
  }

  /** The `*` operator of `U256`, which drops the high half of the product. */
  function WrapMul(a: U256, b: U256): U256 {
    Product(a, b) % TWO_256
  }

  function Pow2(n: nat): (r: nat)
    ensures r > 0
  {
    if n == 0 then 1 else 2 * Pow2(n - 1)
  }

  lemma {:induction false} Pow2Add(a: nat, b: nat)
    ensures Pow2(a + b) == Pow2(a) * Pow2(b)
  {
    if a == 0 {
    } else {
      Pow2Add(a - 1, b);
      assert Pow2(a + b) == 2 * Pow2(a - 1 + b);
    }
  }

  lemma Pow2Double(n: nat, m: nat, v: int)
    requires Pow2(n) == v && m == n + n
    ensures Pow2(m) == v * v
  {
    Pow2Add(n, n);
  }

  /** The bound of a word is two to its number of bits. */
  lemma Pow2OfWord(bits: nat)
    requires bits == 256
    ensures Pow2(bits) == TWO_256
  {
    assert Pow2(4) == 16;
    Pow2Double(4, bits / 32, 16);
    Pow2Double(bits / 32, bits / 16, 0x100);
    Pow2Double(bits / 16, bits / 8, 0x1_0000);
    Pow2Double(bits / 8, bits / 4, 0x1_0000_0000);
    Pow2Double(bits / 4, bits / 2, TWO_64);
    Pow2Double(bits / 2, bits, TWO_64 * TWO_64);
  }

  /** Number of binary digits of `n`. */
  function BitLength(n: nat): nat {
    if n == 0 then 0 else 1 + BitLength(n / 2)
  }

  lemma {:induction false} BitLengthBound(n: nat, k: nat)
    requires n < Pow2(k)
    ensures BitLength(n) <= k
  {
    if n == 0 {
    } else {
      BitLengthBound(n / 2, k - 1);
    }
  }

  lemma {:induction false} BitLengthMonotone(a: nat, b: nat)
    requires a <= b
    ensures BitLength(a) <= BitLength(b)
  {
    if a == 0 {
    } else {
      BitLengthMonotone(a / 2, b / 2);
    }
  }
}
