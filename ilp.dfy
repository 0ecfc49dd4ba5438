/**
 * The vocabulary of the 0/1 integer linear program that the crossword
 * encoder hands to its solver: decision-variable keys, linear constraints
 * over them, assignments, and what it means for an assignment to solve a
 * program. Every coefficient in the encoder is 1, so a linear expression is
 * just the sequence of keys it adds up.
 */
module Ilp {

  /** The key `(i, j, k)` of one binary decision variable `x[i, j, k]`:
      word index `i`, "row" index `j` and start column `k`. */
  datatype Key = Key(word: nat, row: nat, start: nat)

  /** The two relations the encoder uses: `== rhs` and `<= rhs`. */
  datatype Relation = Eq | Le

  /** `lpSum(terms) == rhs` or `lpSum(terms) <= rhs`. */
  datatype Constraint = Constraint(terms: seq<Key>, rel: Relation, rhs: int)

  /** A program as the solver receives it: the variables it declares, the
      expression whose sum it minimises, and its constraints in the order they
      were added. */
  datatype LinearProgram = LinearProgram(variables: seq<Key>, objective: seq<Key>, constraints: seq<Constraint>)

  /** The value the solver gives each variable. */
  type Assignment = Key -> int

  /** The value of `lpSum(terms)` under `a`. */
  function Sum(a: Assignment, terms: seq<Key>): int
  {
    if terms == [] then 0 else Sum(a, terms[..|terms| - 1]) + a(terms[|terms| - 1])
  }

  predicate Satisfies(a: Assignment, c: Constraint)
  {
    match c.rel
    case Eq => Sum(a, c.terms) == c.rhs
    case Le => Sum(a, c.terms) <= c.rhs
  }

  predicate SatisfiesAll(a: Assignment, cs: seq<Constraint>)
  {
    forall c :: c in cs ==> Satisfies(a, c)
  }

  /** `a` gives 0 or 1 to every key in `keys` (`cat='Binary'`). */
  predicate BinaryOn(a: Assignment, keys: seq<Key>)
  {
    forall v :: v in keys ==> a(v) == 0 || a(v) == 1
  }

  /** What the solver oracle is trusted to return: a 0/1 value for every
      declared variable that meets every constraint. */
  predicate Solves(a: Assignment, p: LinearProgram)
  {
    BinaryOn(a, p.variables) && SatisfiesAll(a, p.constraints)
  }

  /** A sum over a concatenation splits into the two sums. */
  lemma {:induction false} SumAppend(a: Assignment, s: seq<Key>, t: seq<Key>)
    ensures Sum(a, s + t) == Sum(a, s) + Sum(a, t)
    decreases |t|
  {
    if t == [] {
      assert s + t == s;
    } else {
      var last := |t| - 1;
      assert (s + t)[..|s + t| - 1] == s + t[..last];
      SumAppend(a, s, t[..last]);
    }
  }

  /** A sum of `|s|` binaries lies between 0 and `|s|`. */
  lemma {:induction false} SumOfBinaries(a: Assignment, s: seq<Key>)
    requires BinaryOn(a, s)
    ensures 0 <= Sum(a, s) <= |s|
    decreases |s|
  {
    if s != [] {
      var init := s[..|s| - 1];
      assert BinaryOn(a, init) by {
        forall v | v in init ensures a(v) == 0 || a(v) == 1 {
          assert v in s;
        }
      }
      SumOfBinaries(a, init);
      assert s[|s| - 1] in s;
    }
  }

  /** A sum over keys that all get 0 is 0. */
  lemma {:induction false} SumOfZeros(a: Assignment, s: seq<Key>)
    requires forall v :: v in s ==> a(v) == 0
    ensures Sum(a, s) == 0
    decreases |s|
  {
    if s != [] {
      var init := s[..|s| - 1];
      assert forall v :: v in init ==> v in s;
      SumOfZeros(a, init);
      assert s[|s| - 1] in s;
    }
  }

  /** Adding constraints one family after another: an assignment meets the
      concatenation exactly when it meets each part. */
  lemma SatisfiesAllAppend(a: Assignment, s: seq<Constraint>, t: seq<Constraint>)
    ensures SatisfiesAll(a, s + t) <==> SatisfiesAll(a, s) && SatisfiesAll(a, t)
  {
    assert forall c :: c in s + t <==> c in s || c in t;
  }
}
