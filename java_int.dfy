/** Java's 32-bit `int`: the type of a node's priority and of the merge sum. */
module JavaInt {

  const Modulus: int := 0x1_0000_0000

  type Int32 = x: int | -0x8000_0000 <= x < 0x8000_0000

  /** The two's-complement wrap-around Java applies to an `int` result. */
  function Wrap(x: int): (r: Int32)
    ensures (x - r) % Modulus == 0
  {
    var m := x % Modulus;
    if m < 0x8000_0000 then m else m - Modulus
  }

  /** Java's `a + b` on two `int`s. */
  function Add(a: Int32, b: Int32): (r: Int32)
    ensures -0x8000_0000 <= a + b < 0x8000_0000 ==> r == a + b
    ensures (a + b - r) % Modulus == 0
  {
    Wrap(a + b)
  }

  /** Two integers congruent modulo 2^32 wrap to the same `int`. */
  lemma WrapCongruent(x: int, y: int)
    requires (x - y) % Modulus == 0
    ensures Wrap(x) == Wrap(y)
  {
    var rx: int, ry: int := Wrap(x), Wrap(y);
    assert (rx - ry) % Modulus == 0 by {
      assert rx - ry == (x - y) - (x - rx) + (y - ry);
      ModSum(x - y, -(x - rx), y - ry);
    }
  }

  /** Proof hint: a sum of multiples of 2^32 is one. */
  lemma ModSum(a: int, b: int, c: int)
    requires a % Modulus == 0 && b % Modulus == 0 && c % Modulus == 0
    ensures (a + b + c) % Modulus == 0
  {
  }

  /** Adding two wrapped values and wrapping again is wrapping the exact sum. */
  lemma WrapAdd(x: int, y: int)
    ensures Wrap(Wrap(x) + Wrap(y)) == Wrap(x + y)
  {
    var rx: int, ry: int := Wrap(x), Wrap(y);
    assert x + y - (rx + ry) == (x - rx) + (y - ry) + 0;
    ModSum(x - rx, y - ry, 0);
    WrapCongruent(rx + ry, x + y);
  }

  /** Proof hint: a value already in `int` range is left as it is. */
  lemma WrapInRange(x: int)
    requires -0x8000_0000 <= x < 0x8000_0000
    ensures Wrap(x) == x
  {
  }
}
