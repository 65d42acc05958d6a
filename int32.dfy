/** Java's 32-bit `int`: the range of values and the wrap-around of `+` and `+=`. */
module Int32 {

  const MIN: int := -0x8000_0000
  const MAX: int := 0x7fff_ffff
  const MODULUS: int := 0x1_0000_0000

  predicate InRange(x: int) {
    MIN <= x <= MAX
  }

  predicate AllInRange(s: seq<int>) {
    forall i :: 0 <= i < |s| ==> InRange(s[i])
  }

  /** Java's `a + b` on two `int`s: the mathematical sum when it fits, otherwise the sum
      moved by 2^32 back into the range. */
  function Add(a: int, b: int): (r: int)
    requires InRange(a) && InRange(b)
    ensures InRange(r)
    ensures InRange(a + b) ==> r == a + b
  {
    if a + b > MAX then a + b - MODULUS
    else if a + b < MIN then a + b + MODULUS
    else a + b
  }

  /** The stored sum is the mathematical sum modulo 2^32. */
  lemma AddIsModular(a: int, b: int)
    requires InRange(a) && InRange(b)
    ensures (a + b - Add(a, b)) % MODULUS == 0
  {
  }
}
