/** 64-bit words: the conversions between signed and unsigned, which wrap around. */
module Words {
  const MIN_INT := -0x8000_0000_0000_0000
  const MAX_INT := 0x7FFF_FFFF_FFFF_FFFF
  const TWO64 := 0x1_0000_0000_0000_0000

  predicate Int64(x: int) {
    MIN_INT <= x <= MAX_INT
  }

  /** The conversion uint64(x). */
  function Unsigned(x: int): (u: int)
    ensures 0 <= u < TWO64
    ensures 0 <= x < TWO64 ==> u == x
    ensures (x - u) % TWO64 == 0
  {
    x % TWO64
  }

  /** The conversion int64(x). */
  function Signed(x: int): (i: int)
    ensures Int64(i) && (Int64(x) ==> i == x)
  {
    var u := Unsigned(x);
    if u <= MAX_INT then u else u - TWO64
  }

  lemma UnsignedSigned(x: int)
    ensures Unsigned(Signed(x)) == Unsigned(x)
  {
    var u := Unsigned(x);
    if u > MAX_INT { assert (u - TWO64) % TWO64 == u; }
  }

  lemma SignedUnsigned(x: int)
    requires Int64(x)
    ensures Signed(Unsigned(x)) == x
  {
    if x < 0 { assert x % TWO64 == x + TWO64; }
  }
}
