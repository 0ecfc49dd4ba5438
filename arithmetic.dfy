/** Small facts about multiplication that the counting lemmas lean on. */
module Arithmetic {

  lemma MulStep(i: nat, n: nat, m: nat)
    requires i < n
    ensures i * m + m <= n * m
  {
    assert i * m + m == (i + 1) * m;
  }

  lemma MulPred(n: nat, m: nat)
    requires n > 0
    ensures n * m == (n - 1) * m + m && m * n == m * (n - 1) + m
  {
  }

  lemma MulAdd(m: nat, a: nat, b: nat)
    ensures m * (a + b) == m * a + m * b
  {
  }
}
