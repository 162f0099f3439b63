/** Facts about multiplication that the index and band arithmetic rests on. */
module Arith {

  lemma MulMono(a: int, b: int, n: int)
    requires a <= b && n >= 0
    ensures a * n <= b * n
  {
  }

  lemma MulLessCancel(a: int, b: int, n: int)
    requires n > 0 && a * n < b * n
    ensures a < b
  {
  }

  lemma Distrib(a: int, b: int, n: int)
    ensures (a + b) * n == a * n + b * n
  {
  }
}
