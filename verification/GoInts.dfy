/** The fixed-width integer conversions of Go, written out on mathematical integers. */
module GoInts {

  const TWO_31 := 0x8000_0000
  const TWO_32 := 0x1_0000_0000

  /** int32(x): the low 32 bits read as a two's-complement number. */
  function Int32(x: int): (r: int)
    ensures -TWO_31 <= r < TWO_31
    ensures (r - x) % TWO_32 == 0
  {
    var low := x % TWO_32;
    if low < TWO_31 then low else low - TWO_32
  }

  /** uint32(x): the low 32 bits read as an unsigned number. */
  function UInt32(x: int): (r: nat)
    ensures r < TWO_32
    ensures (r - x) % TWO_32 == 0
  {
    x % TWO_32
  }

  /** The conversion repeats with period exactly 2^32. */
  lemma Int32Collides(a: int, b: int)
    ensures Int32(a) == Int32(b) <==> (b - a) % TWO_32 == 0
  {
  }
}
