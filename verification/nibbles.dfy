/** The four keypad column lines as the controller reads them: a 4-bit value
    whose bit k is 1 while column k is idle (pulled high) and 0 while a
    pressed key connects column k to the driven row. */
module Nibbles {

  /** The column nibble read from the port data input register, already
      masked to the four column pins and shifted down. */
  type Nibble = n: int | 0 <= n < 16

  /** An index of one of the four column lines. */
  type Column = k: nat | k < 4

  /** Every column line high: no key connects any column to a driven row. */
  const AllHigh: Nibble := 0xF

  /** The place value of bit k. */
  function Weight(k: Column): (w: nat)
    ensures w == 1 || w == 2 || w == 4 || w == 8
  {
    if k == 0 then 1 else if k == 1 then 2 else if k == 2 then 4 else 8
  }

  /** Column k reads low in n. */
  predicate IsLow(n: Nibble, k: Column) {
    (n / Weight(k)) % 2 == 0
  }

  /** How many column lines read low in n. */
  function LowCount(n: Nibble): (c: nat)
    ensures c <= 4
    ensures c == 0 <==> n == AllHigh
  {
    (if IsLow(n, 0) then 1 else 0) + (if IsLow(n, 1) then 1 else 0) +
    (if IsLow(n, 2) then 1 else 0) + (if IsLow(n, 3) then 1 else 0)
  }
}
