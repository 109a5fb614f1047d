/** C# `int`: 32-bit two's complement, with the unchecked wrap-around
    that `+` and `*` perform by default. */
module Int32 {

  const Min: int := -0x8000_0000
  const Max: int := 0x7fff_ffff
  const Modulus: int := 0x1_0000_0000

  type I32 = x: int | Min <= x <= Max

  /** The value an unchecked C# `int` operation yields for the exact result `x`:
      the unique `int` congruent to `x` modulo 2^32. */
  function Wrap(x: int): (r: I32)
    ensures (r - x) % Modulus == 0
    ensures Min <= x <= Max ==> r == x
  {
    (x - Min) % Modulus + Min
  }

  /** Wrap is the only in-range value congruent to its argument. */
  lemma WrapUnique(x: int, y: int)
    requires Min <= y <= Max
    requires (y - x) % Modulus == 0
    ensures y == Wrap(x)
  {
    var w := Wrap(x);
    assert (y - w) % Modulus == 0 by {
      assert y - w == (y - x) - (w - x);
    }
    assert -Modulus < y - w < Modulus;
  }
}
