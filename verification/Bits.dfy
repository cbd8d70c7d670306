/** Bitfields of a 256-bit storage word. */
module Bits {
  import opened Words
  import opened Division

  /** Bitwise `&`. */
  function BitAnd(a: nat, b: nat): nat {
    if a == 0 || b == 0 then 0 else (a % 2) * (b % 2) + 2 * BitAnd(a / 2, b / 2)
  }

  /** `>>`: bits shifted past the lowest are lost, and a shift by the width or more leaves zero. */
  function ShiftRight(a: nat, n: nat): nat {
    if n == 0 then a else ShiftRight(a / 2, n - 1)
  }

  /** `<<`: bits shifted past the highest of the word are lost. */
  function ShiftLeft(a: U256, n: nat): U256
    decreases n
  {
    if n == 0 then a else ShiftLeft((2 * a) % TWO_256, n - 1)
  }

  /** `extract_bits` */
  function ExtractBits(raw: U256, offsetBits: U16, widthBits: U16): U256 {
    ShiftRightFits(raw, offsetBits);
    if widthBits == 0 then 0
    else if widthBits >= 256 then ShiftRight(raw, offsetBits)
    else
      var mask := SatSub(ShiftLeft(1, widthBits), 1);
      BitAndFits(ShiftRight(raw, offsetBits), mask);
      BitAnd(ShiftRight(raw, offsetBits), mask)
  }

  lemma {:induction false} ShiftRightFits(a: nat, n: nat)
    ensures ShiftRight(a, n) <= a
  {
    if n == 0 {
    } else {
      ShiftRightFits(a / 2, n - 1);
    }
  }

  lemma BitProduct(x: nat, y: nat)
    requires x < 2 && y < 2
    ensures 0 <= x * y <= x
  {
  }

  lemma {:induction false} BitAndFits(a: nat, b: nat)
    ensures BitAnd(a, b) <= a
  {
    if a == 0 || b == 0 {
    } else {
      BitProduct(a % 2, b % 2);
      BitAndFits(a / 2, b / 2);
    }
  }

  lemma {:induction false} ShiftRightIsDiv(a: nat, n: nat)
    ensures ShiftRight(a, n) == a / Pow2(n)
  {
    if n == 0 {
    } else {
      ShiftRightIsDiv(a / 2, n - 1);
      DivDiv(a, Pow2(n - 1));
    }
  }

  lemma {:induction false} ShiftLeftIsPow2(e: nat, n: nat, x: U256)
    requires x == Pow2(e) && e + n < 256
    ensures ShiftLeft(x, n) == Pow2(e + n)
    decreases n
  {
    if n == 0 {
    } else {
      var next: nat := e + 1;
      assert Pow2(next) == 2 * x;
      Pow2Monotone(next, 255);
      TopBit(255);
      ModBelow(2 * x, TWO_256);
      ShiftLeftIsPow2(next, n - 1, 2 * x);
    }
  }

  lemma TopBit(top: nat)
    requires top == 255
    ensures Pow2(top) < TWO_256
  {
    Pow2OfWord(top + 1);
    assert Pow2(top + 1) == 2 * Pow2(top);
  }

  /** The low bits selected by an all-ones mask are the remainder. */
  lemma {:induction false} MaskIsMod(a: nat, w: nat)
    ensures BitAnd(a, Pow2(w) - 1) == a % Pow2(w)
  {
    if w == 0 {
    } else {
      var d := Pow2(w - 1);
      assert Pow2(w) == 2 * d;
      MaskIsMod(a / 2, w - 1);
      DivDiv(a, d);
      assert (2 * d - 1) / 2 == d - 1 && (2 * d - 1) % 2 == 1;
      assert (a % 2) * 1 == a % 2;
    }
  }

  lemma {:induction false} Pow2Monotone(a: nat, b: nat)
    requires a <= b
    ensures Pow2(a) <= Pow2(b)
  {
    if a == 0 {
    } else {
      Pow2Monotone(a - 1, b - 1);
    }
  }

  /** All branches read the same field: bits `offset` to `offset + width` of the word, for every
      offset and width, including those at or beyond the end of the word. */
  lemma {:induction false} ExtractBitsIsField(raw: U256, offsetBits: U16, widthBits: U16)
    ensures ExtractBits(raw, offsetBits, widthBits) == raw / Pow2(offsetBits) % Pow2(widthBits)
  {
    ShiftRightIsDiv(raw, offsetBits);
    if widthBits == 0 {
      assert Pow2(widthBits) == 1;
    } else if widthBits >= 256 {
      WholeWordFits(ShiftRight(raw, offsetBits), raw, offsetBits, widthBits, 256);
    } else {
      assert Pow2(0) == 1;
      ShiftLeftIsPow2(0, widthBits, 1);
      MaskIsMod(ShiftRight(raw, offsetBits), widthBits);
    }
  }

  lemma WholeWordFits(shifted: nat, raw: U256, n: nat, width: nat, wordBits: nat)
    requires shifted == ShiftRight(raw, n) && wordBits == 256 && width >= wordBits
    ensures shifted % Pow2(width) == shifted
  {
    ShiftRightFits(raw, n);
    Pow2OfWord(wordBits);
    Pow2Monotone(wordBits, width);
    ModBelow(shifted, Pow2(width));
  }

  datatype Field = Field(offsetBits: U16, widthBits: U16)

  /** The fields follow one another without gaps, from bit `from` to bit `to`. */
  predicate Tiles(fields: seq<Field>, from: nat, to: nat) {
    if |fields| == 0 then from == to
    else fields[0].offsetBits == from && Tiles(fields[1..], from + fields[0].widthBits, to)
  }

  /** The word put together from the values of its fields. */
  function Reassemble(raw: U256, fields: seq<Field>): nat {
    if |fields| == 0 then 0
    else
      ExtractBits(raw, fields[0].offsetBits, fields[0].widthBits) * Pow2(fields[0].offsetBits)
      + Reassemble(raw, fields[1..])
  }

  /** The part of the word from bit `o` on is the field of width `w` there and the part above it. */
  lemma SplitField(raw: nat, o: nat, w: nat)
    ensures raw / Pow2(o) * Pow2(o) == raw / Pow2(o) % Pow2(w) * Pow2(o) + raw / Pow2(o + w) * Pow2(o + w)
  {
    ShiftRightIsDiv(raw, o);
    var high := ShiftRight(raw, o);
    ShiftRightIsDiv(high, w);
    ShiftTwice(raw, o, w);
    ShiftRightIsDiv(raw, o + w);
    Pow2Add(o, w);
    SplitProduct(high, Pow2(w), Pow2(o));
  }

  lemma SplitProduct(high: nat, d: nat, p: nat)
    requires d > 0
    ensures high * p == high % d * p + high / d * (p * d)
  {
    DivMod(high, d);
    var q, r := high / d, high % d;
    Distribute(p, d * q, r);
    assert p * (d * q) == q * (p * d);
  }

  lemma {:induction false} ShiftTwice(raw: nat, o: nat, w: nat)
    ensures ShiftRight(ShiftRight(raw, o), w) == ShiftRight(raw, o + w)
  {
    if o == 0 {
    } else {
      ShiftTwice(raw / 2, o - 1, w);
    }
  }

  lemma {:induction false} TilesRebuildFrom(raw: U256, fields: seq<Field>, from: nat, to: nat)
    requires Tiles(fields, from, to) && to == 256
    ensures Reassemble(raw, fields) == raw / Pow2(from) * Pow2(from)
  {
    if |fields| == 0 {
      Pow2OfWord(to);
    } else {
      TilesRebuildFrom(raw, fields[1..], from + fields[0].widthBits, to);
      ExtractBitsIsField(raw, fields[0].offsetBits, fields[0].widthBits);
      SplitField(raw, from, fields[0].widthBits);
    }
  }

  /** Contiguous fields that cover the word lose nothing of it. */
  lemma TilesRebuild(raw: U256, fields: seq<Field>)
    requires Tiles(fields, 0, 256)
    ensures Reassemble(raw, fields) == raw
  {
    TilesRebuildFrom(raw, fields, 0, 256);
    assert Pow2(0) == 1;
  }
}
