/** JavaScript's 32-bit integer conversions, on unbounded integers.
    `x | 0` is ToInt32, `x >>> 0` is ToUint32 and `Math.imul(a, b)` is the
    32-bit product, each given here for integer operands. */
module Int32 {

  const Pow31: int := 0x8000_0000
  const Pow32: int := 0x1_0000_0000

  /** x is a signed 32-bit integer. */
  predicate IsInt32(x: int) {
    -Pow31 <= x < Pow31
  }

  /** `x | 0`: the signed 32-bit integer congruent to x modulo 2^32. */
  function ToInt32(x: int): (r: int)
    ensures IsInt32(r)
    ensures (x - r) % Pow32 == 0
  {
    var m := x % Pow32;
    if m < Pow31 then m else m - Pow32
  }

  /** `x >>> 0`: the unsigned 32-bit integer congruent to x modulo 2^32; on a
      signed 32-bit value it reads the same bit pattern as unsigned. */
  function ToUint32(x: int): (u: nat)
    ensures u < Pow32
    ensures (x - u) % Pow32 == 0
    ensures IsInt32(x) ==> u == if x < 0 then x + Pow32 else x
  {
    x % Pow32
  }

  /** `Math.imul(a, b)`: the low 32 bits of the product, read as signed. */
  function Imul(a: int, b: int): (r: int)
    ensures IsInt32(r)
  {
    ToInt32(a * b)
  }

  /** The signed 32-bit integer congruent to x is unique. */
  lemma ToInt32Unique(x: int, r: int)
    requires IsInt32(r)
    requires (x - r) % Pow32 == 0
    ensures ToInt32(x) == r
  {
    var t := ToInt32(x);
    var d := r - t;
    assert d % Pow32 == 0 by {
      assert (x - r) % Pow32 == 0 && (x - t) % Pow32 == 0;
      assert d == (x - t) - (x - r);
    }
    assert -Pow32 < d < Pow32;
  }

  /** ToInt32 only depends on its argument modulo 2^32. */
  lemma ToInt32Congruent(x: int, y: int)
    requires (x - y) % Pow32 == 0
    ensures ToInt32(x) == ToInt32(y)
  {
    var r := ToInt32(y);
    assert (x - r) % Pow32 == 0 by {
      assert x - r == (x - y) + (y - r);
    }
    ToInt32Unique(x, r);
  }

  /** Wrapping at every step of a sum is the same as wrapping once at the end. */
  lemma ToInt32AddWrapped(a: int, c: int)
    ensures ToInt32(ToInt32(a) + c) == ToInt32(a + c)
  {
    var w := ToInt32(a);
    assert (w + c - (a + c)) % Pow32 == 0 by {
      assert w + c - (a + c) == -(a - w);
    }
    ToInt32Congruent(w + c, a + c);
  }

  /** `n | 0` leaves a signed 32-bit value as it is. */
  lemma ToInt32Fixed(x: int)
    requires IsInt32(x)
    ensures ToInt32(x) == x
  {
    ToInt32Unique(x, x);
  }
}
