/** Monotonicity of multiplication, used where a bound is scaled. */
module Arithmetic {
  lemma Times(a: int, b: int, c: int)
    requires a <= b && c >= 0
    ensures a * c <= b * c
  {
    assert (b - a) * c >= 0;
  }

  lemma TimesLess(a: int, b: int, c: int)
    requires a < b && c >= 0
    ensures a * c + c <= b * c
  {
    Times(a + 1, b, c);
    assert (a + 1) * c == a * c + c;
  }
}
