/** The 4-byte units a snapshot file is made of, and the C scalar types
    stored in them. Floats are never computed on, so a float is just its
    bit pattern. */
module Words {

  /** One 4-byte unit of the file, as its unsigned 32-bit pattern. */
  type Word = x: int | 0 <= x < 0x1_0000_0000

  /** A C `int` (32-bit two's complement). */
  type Int32 = x: int | -0x8000_0000 <= x < 0x8000_0000

  const MaxInt: int := 0x7fff_ffff

  /** Three consecutive floats: a position or a velocity. */
  type Triple = s: seq<Word> | |s| == 3 witness [0, 0, 0]

  /** The `int` whose bytes are those of `w`. */
  function ToInt32(w: Word): Int32
  {
    if w < 0x8000_0000 then w else w - 0x1_0000_0000
  }

  /** The bytes of an `int`, as written by fwrite. */
  function FromInt32(x: Int32): (w: Word)
    ensures ToInt32(w) == x
    ensures 0 <= x ==> w == x
  {
    if x >= 0 then x else x + 0x1_0000_0000
  }

  lemma {:induction false} FromToInt32(w: Word)
    ensures FromInt32(ToInt32(w)) == w
  {
  }

  /** An 8-byte double, as its low and high words (little-endian layout). */
  datatype Double = Double(lo: Word, hi: Word)

  /** The bit pattern of the double 0.0. */
  const ZeroDouble := Double(0, 0)

  /** The bit pattern of the float 0.0f. */
  const ZeroFloat: Word := 0

  /** The C comparison `d == 0`: true for +0.0 and for -0.0, false for
      every other pattern (NaNs included). */
  predicate IsZero(d: Double)
  {
    d.lo == 0 && (d.hi == 0 || d.hi == 0x8000_0000)
  }
}
