/** Go's `int` on the 64-bit Darwin targets the demo is built for (arm64, amd64):
    two's-complement 64-bit integers whose `+` and `*` wrap around modulo 2^64. */
module Int64 {

  const Modulus: int := 0x1_0000_0000_0000_0000
  const Half: int := 0x8000_0000_0000_0000
  const MinInt64: int := -Half
  const MaxInt64: int := Half - 1

  /** The values a Go `int` can hold. */
  type Int64 = x: int | MinInt64 <= x <= MaxInt64

  /** `x` and `y` agree modulo 2^64, i.e. have the same 64-bit representation. */
  predicate Congruent(x: int, y: int) {
    (x - y) % Modulus == 0
  }

  /** The Go value of a mathematically exact result: reduce modulo 2^64 into the signed range. */
  function Wrap(x: int): (r: Int64)
    ensures Congruent(r, x)
    ensures MinInt64 <= x <= MaxInt64 ==> r == x
  {
    var m := (x + Half) % Modulus;
    assert x + Half == Modulus * ((x + Half) / Modulus) + m;
    m - Half
  }

  /** A multiple of 2^64 is congruent to 0. */
  lemma MultipleIsCongruentToZero(k: int)
    ensures Congruent(k * Modulus, 0)
  {
  }

  /** Congruent values wrap to the same Go value. */
  lemma CongruentWrapEqual(x: int, y: int)
    requires Congruent(x, y)
    ensures Wrap(x) == Wrap(y)
  {
    var k := (x - y) / Modulus;
    assert x - y == Modulus * k;
    var qx := (x + Half) / Modulus;
    var qy := (y + Half) / Modulus;
    var rx := (x + Half) % Modulus;
    var ry := (y + Half) % Modulus;
    assert x + Half == Modulus * qx + rx;
    assert y + Half == Modulus * qy + ry;
    assert rx - ry == Modulus * (qy + k - qx);
    assert qy + k - qx == 0;
  }

  /** Wrapping each operand of an addition first does not change the wrapped sum. */
  lemma WrapAdd(a: int, b: int)
    ensures Wrap(Wrap(a) + Wrap(b)) == Wrap(a + b)
  {
    var ka := (Wrap(a) - a) / Modulus;
    var kb := (Wrap(b) - b) / Modulus;
    assert Wrap(a) - a == Modulus * ka;
    assert Wrap(b) - b == Modulus * kb;
    assert (Wrap(a) + Wrap(b)) - (a + b) == Modulus * (ka + kb);
    MultipleIsCongruentToZero(ka + kb);
    CongruentWrapEqual(Wrap(a) + Wrap(b), a + b);
  }

  /** Wrapping the right operand of a multiplication first does not change the wrapped product. */
  lemma WrapMul(a: int, b: int)
    ensures Wrap(a * Wrap(b)) == Wrap(a * b)
  {
    var kb := (Wrap(b) - b) / Modulus;
    assert Wrap(b) - b == Modulus * kb;
    assert a * Wrap(b) - a * b == a * (Wrap(b) - b);
    assert a * Wrap(b) - a * b == Modulus * (a * kb);
    MultipleIsCongruentToZero(a * kb);
    CongruentWrapEqual(a * Wrap(b), a * b);
  }
}
