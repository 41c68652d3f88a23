/** The protocol's 24.8 signed fixed-point number: a 32-bit word whose
    two's-complement value is 256 times the number it stands for. Only the
    integer conversions are modelled. */
module FixedPoint {
  import opened Wire

  /** Integer division rounding toward zero, as Go's `/` on int32 does
      (Dafny's own `/` is Euclidean). */
  function Quot(a: int, d: int): (q: int)
    requires d > 0
    ensures a >= 0 ==> 0 <= a - d * q < d
    ensures a < 0 ==> -d < a - d * q <= 0
  {
    if a >= 0 then a / d else -((-a) / d)
  }

  newtype Fixed = x: int | 0 <= x < 0x1_0000_0000 {

    /** The bits read as a signed value, divided by 256 and truncated toward zero. */
    function Int32(): (r: int32)
      ensures -0x80_0000 <= r < 0x80_0000
      ensures var s := ToInt32(this as int);
        (s >= 0 ==> 0 <= s - 256 * r < 256) && (s < 0 ==> -256 < s - 256 * r <= 0)
    {
      Quot(ToInt32(this as int), 256)
    }

    /** Int32 widened to Go's 64-bit `int`. */
    function Int(): (r: int64)
      ensures -0x80_0000 <= r < 0x80_0000
      ensures r == Int32() as int
    {
      Int32() as int
    }
  }

  /** ParseFixed for an integer argument. Go converts `v * 256.0` to int32,
      which is implementation-defined outside the int32 range, so `v` must
      keep `v * 256` inside it. */
  function ParseFixed(v: int): (f: Fixed)
    requires -0x80_0000 <= v < 0x80_0000
    ensures ToInt32(f as int) == v * 256
    ensures f % 256 == 0
  {
    ToUint32(v * 256) as Fixed
  }

  /** Converting an integer to fixed point and back gives the integer. */
  lemma ParseFixedRoundTrip(v: int)
    requires -0x80_0000 <= v < 0x80_0000
    ensures ParseFixed(v).Int32() == v
    ensures ParseFixed(v).Int() == v
  {
    var f := ParseFixed(v);
    var r := f.Int32();
    assert ToInt32(f as int) == 256 * v;
    if v >= 0 {
      assert 0 <= 256 * (v - r) < 256;
    } else {
      assert -256 < 256 * (v - r) <= 0;
    }
  }

  /** The bits of -486 (that is, -1.8984375) give -1: truncation, not flooring. */
  lemma TruncatesTowardZero()
    ensures (ToUint32(-486) as Fixed).Int32() == -1
    ensures (ToUint32(486) as Fixed).Int32() == 1
  {
  }
}
