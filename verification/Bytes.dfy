/** Bytes, 16-bit words and C's fixed-width conversions. */
module Bytes {

  type Byte = b: int | 0 <= b < 256
  type Word = w: int | 0 <= w < 0x1_0000

  // Unused key slots hold this code; it also marks free index and layout entries.
  const NO_KEY: Byte := 0xFF

  function Lo(w: Word): Byte { w % 256 }

  function Hi(w: Word): Byte { w / 256 }

  /** A little-endian word, as every multi-byte field of the firmware is stored. */
  function MakeWord(lo: Byte, hi: Byte): Word { lo + 256 * hi }

  lemma WordParts(lo: Byte, hi: Byte)
    ensures Lo(MakeWord(lo, hi)) == lo && Hi(MakeWord(lo, hi)) == hi
  {
    var w: int := lo + 256 * hi;
    var q, r := w / 256, w % 256;
    assert w == 256 * q + r && 0 <= r < 256;
    assert 256 * (q - hi) == lo - r;
  }

  function WordBytes(w: Word): (s: seq<Byte>)
    ensures |s| == 2 && MakeWord(s[0], s[1]) == w
  {
    [Lo(w), Hi(w)]
  }

  function ReadWord(mem: seq<Byte>, at: nat): Word
    requires at + 2 <= |mem|
  {
    MakeWord(mem[at], mem[at + 1])
  }

  /** Two's-complement reading of a byte: C's cast from uint8_t to int8_t. */
  function Signed8(b: Byte): (s: int)
    ensures -128 <= s < 128
  {
    if b < 128 then b else b - 256
  }

  function Signed16(w: Word): (s: int)
    ensures -0x8000 <= s < 0x8000
  {
    if w < 0x8000 then w else w - 0x1_0000
  }

  /** Truncation to eight bits. Dafny's % is never negative, so this is C's conversion for either sign. */
  function Wrap8(x: int): Byte { x % 256 }

  function Wrap16(x: int): Word { x % 0x1_0000 }

  /** Adding a small count to an int16_t. */
  function Add16(x: int, n: nat): (s: int)
    ensures x + n < 0x8000 ==> s == x + n
  {
    if x + n < 0x8000 then x + n else x + n - 0x1_0000
  }
}
