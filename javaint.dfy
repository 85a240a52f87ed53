/** Java's 32-bit `int`: its range and the wrap-around of its arithmetic. */
module JavaInt {

  const IntMin := -0x8000_0000
  const IntMax := 0x7fff_ffff
  const Modulus := 0x1_0000_0000

  predicate InIntRange(n: int) {
    IntMin <= n <= IntMax
  }

  /** The values of a Java `int`. */
  type Int32 = n: int | -0x8000_0000 <= n <= 0x7fff_ffff

  /** The `int` a Java addition or subtraction yields for mathematical result `n`: the one
      value in range that is congruent to `n` modulo 2^32. */
  function Wrap(n: int): (r: int)
    ensures InIntRange(r)
    ensures (r - n) % Modulus == 0
    ensures InIntRange(n) ==> r == n
  {
    (n - IntMin) % Modulus + IntMin
  }
}
