/**
  Fixed-width unsigned integers of the target board. On the ESP32 `byte` and
  `fract8` are 8 bits wide and `unsigned long` (what `millis()` returns) is
  32 bits wide; C arithmetic on them wraps around, which is written out here
  explicitly on unbounded integers.
 */
module Units {

  const ByteModulus: int := 0x100
  const WordModulus: int := 0x1_0000_0000

  /** An 8-bit unsigned value (`byte`, `uint8_t`, `fract8`). */
  type Byte = x: int | 0 <= x < ByteModulus

  /** A 32-bit unsigned value (`unsigned long`). */
  type Word = x: int | 0 <= x < WordModulus

  /** `a + b` stored back into an 8-bit variable: the sum modulo 256. */
  function AddByte(a: Byte, b: Byte): (r: Byte)
    ensures a + b < ByteModulus ==> r == a + b
    ensures a + b >= ByteModulus ==> r == a + b - ByteModulus
  {
    (a + b) % ByteModulus
  }

  /** `a - b` on 32-bit unsigned operands: the unique word that, added to `b`,
      gives `a` again modulo 2^32. */
  function SubWord(a: Word, b: Word): (r: Word)
    ensures (b + r) % WordModulus == a
    ensures b <= a ==> r == a - b
    ensures a < b ==> r == a - b + WordModulus
  {
    (a - b) % WordModulus
  }

  /** The time that is `d` milliseconds after `t` on the wrapping 32-bit clock. */
  function AdvanceWord(t: Word, d: Word): (r: Word)
    ensures t + d < WordModulus ==> r == t + d
    ensures t + d >= WordModulus ==> r == t + d - WordModulus
  {
    (t + d) % WordModulus
  }

  /** Wrapping subtraction undoes wrapping addition: the elapsed time from `t`
      to `t + d` is `d`, whether or not the clock wrapped in between. */
  lemma SubUndoesAdvance(t: Word, d: Word)
    ensures SubWord(AdvanceWord(t, d), t) == d
  {
  }
}
