// Summing an array of 32-bit ints into a 64-bit accumulator (asm6/src/f31.cc).
module F31Sum {

  newtype int32 = x: int | -0x8000_0000 <= x < 0x8000_0000
  newtype int64 = x: int | -0x8000_0000_0000_0000 <= x < 0x8000_0000_0000_0000

  /** The mathematical sum of a sequence of ints. */
  function Total(s: seq<int32>): int
  {
    if |s| == 0 then 0 else Total(s[..|s| - 1]) + s[|s| - 1] as int
  }

  /** A sum of k 32-bit values lies within k times the int32 range. */
  lemma {:induction false} TotalBounds(s: seq<int32>)
    ensures -0x8000_0000 * |s| <= Total(s) <= 0x7fff_ffff * |s|
  {
    if |s| > 0 {
      TotalBounds(s[..|s| - 1]);
    }
  }

  /** The sum depends only on the elements, so a shorter prefix extends by one. */
  lemma {:induction false} TotalSnoc(s: seq<int32>, i: nat)
    requires i < |s|
    ensures Total(s[..i + 1]) == Total(s[..i]) + s[i] as int
  {
    assert s[..i + 1][..i] == s[..i];
  }

  /**
   * `f(v, n)`: adds v[0..n) into a `long` accumulator with an `int` index.
   * `n <= 0` runs no iteration and returns 0. Since n is an `int`, at most
   * 2^31 - 1 values are added, so every partial sum stays below 2^62 in
   * magnitude and the `long` never wraps around; the model performs each
   * addition in `int64`, so that fact is checked at every step.
   */
  method F(v: array<int32>, n: int32) returns (sum: int64)
    requires n as int <= v.Length
    ensures n <= 0 ==> sum == 0
    ensures n > 0 ==> sum as int == Total(v[..n])
    ensures -0x8000_0000 * (if n > 0 then n as int else 0) <= sum as int
    ensures sum as int <= 0x7fff_ffff * (if n > 0 then n as int else 0)
  {
    sum := 0;
    var i: int32 := 0;
    while i < n
      invariant 0 <= i as int <= if n > 0 then n as int else 0
      invariant sum as int == Total(v[..i])
    {
      TotalSnoc(v[..], i as nat);
      TotalBounds(v[..i + 1]);
      assert v[..i + 1] == v[..][..i + 1];
      sum := sum + v[i] as int64;
      i := i + 1;
    }
    TotalBounds(v[..i]);
  }
}
