/** Signed 64-bit addition. */
module Int64 {

  const MAX_INT64 := 0x7fff_ffff_ffff_ffff

  predicate IsInt64(a: int) {
    -MAX_INT64 - 1 <= a <= MAX_INT64
  }

  /** Addition that wraps around. */
  function Add64(a: int, b: int): (r: int)
    ensures IsInt64(r)
    ensures IsInt64(a + b) ==> r == a + b
  {
    (a + b + MAX_INT64 + 1) % (2 * (MAX_INT64 + 1)) - (MAX_INT64 + 1)
  }

  /** The sum of two numbers that are not negative overflows exactly if it comes out
      negative. */
  lemma OverflowIsNegative(a: int, b: int)
    requires 0 <= a <= MAX_INT64 && 0 <= b <= MAX_INT64
    ensures Add64(a, b) < 0 <==> a + b > MAX_INT64
  {
    if a + b > MAX_INT64 {
      var k := 2 * (MAX_INT64 + 1);
      assert a + b + MAX_INT64 + 1 == k + (a + b - MAX_INT64 - 1);
      assert (a + b + MAX_INT64 + 1) % k == a + b - MAX_INT64 - 1;
    }
  }
}
