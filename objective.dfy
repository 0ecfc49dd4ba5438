/**
 * The program `crossword_solver` hands to its solver, and what can be said
 * about it without running a solver: the horizontal family alone decides
 * feasibility, it is always feasible, and it forces the value of the
 * objective, so every feasible 0/1 assignment is optimal.
 */
module Objective {
  import opened Ilp
  import opened Variables
  import opened Arithmetic
  import opened Constraints
  import opened Decoder

  /** The problem as it stands at `problem.solve()`: variables `x`, the
      objective `lpSum` of all of them, and the three families in order. */
  function Program(words: seq<string>): LinearProgram
  {
    var n, m := |words|, Width(words);
    LinearProgram(Locations(n, m), Locations(n, m), AllConstraints(words))
  }

  /** An assignment minimises the objective among all 0/1 solutions. */
  ghost predicate Optimal(a: Assignment, p: LinearProgram)
  {
    Solves(a, p) && forall b :: Solves(b, p) ==> Sum(a, p.objective) <= Sum(b, p.objective)
  }

  /** The horizontal family says precisely that every `(i, j)` has one start
      column switched on. */
  lemma HorizontalMeaning(a: Assignment, n: nat, m: nat)
    ensures SatisfiesAll(a, Horizontal(n, m)) <==> OnePerCell(a, n, m)
  {
    HorizontalMembers(n, m);
    if SatisfiesAll(a, Horizontal(n, m)) {
      forall i, j | 0 <= i < n && 0 <= j < m
        ensures Sum(a, Cell(i, j)) == 1
      {
        assert Satisfies(a, ExactlyOne(i, j));
      }
    }
    if OnePerCell(a, n, m) {
      forall c | c in Horizontal(n, m)
        ensures Satisfies(a, c)
      {
        var i, j :| 0 <= i < n && 0 <= j < m && c == ExactlyOne(i, j);
      }
    }
  }

  /** Under 0/1 values, the horizontal family says that every in-range cell
      has exactly one start column switched on. */
  lemma ExactlyOneStart(a: Assignment, n: nat, m: nat, i: nat, j: nat)
    requires i < n && j < m
    requires BinaryOn(a, Locations(n, m)) && SatisfiesAll(a, Horizontal(n, m))
    ensures exists k :: 0 <= k < Span && a(Key(i, j, k)) == 1 &&
                        forall k' :: 0 <= k' < Span && k' != k ==> a(Key(i, j, k')) != 1
  {
    HorizontalMeaning(a, n, m);
    CellBinary(a, n, m, i, j);
    CellOneStart(a, i, j);
  }

  lemma {:induction false} WordKeysSum(a: Assignment, i: nat, m: nat, n: nat)
    requires i < n && OnePerCell(a, n, m)
    ensures Sum(a, WordKeys(i, m)) == m
  {
    if m > 0 {
      WordKeysSum(a, i, m - 1, n);
      SumAppend(a, WordKeys(i, m - 1), Cell(i, m - 1));
    }
  }

  lemma {:induction false} LocationsSum(a: Assignment, n: nat, m: nat, total: nat)
    requires n <= total && OnePerCell(a, total, m)
    ensures Sum(a, Locations(n, m)) == n * m
  {
    if n > 0 {
      LocationsSum(a, n - 1, m, total);
      WordKeysSum(a, n - 1, m, total);
      LocationsStep(a, n, m);
    }
  }

  lemma LocationsStep(a: Assignment, n: nat, m: nat)
    requires n > 0
    requires Sum(a, Locations(n - 1, m)) == (n - 1) * m && Sum(a, WordKeys(n - 1, m)) == m
    ensures Sum(a, Locations(n, m)) == n * m
  {
    SumAppend(a, Locations(n - 1, m), WordKeys(n - 1, m));
    MulPred(n, m);
  }

  /** Whatever else holds, an assignment meeting the horizontal family has
      objective value exactly `|words| * |words[0]|`. */
  lemma ObjectiveForced(a: Assignment, n: nat, m: nat)
    requires SatisfiesAll(a, Horizontal(n, m))
    ensures Sum(a, Locations(n, m)) == n * m
  {
    HorizontalMeaning(a, n, m);
    LocationsSum(a, n, m, n);
  }

  /** The assignment "start column 0 in every row, nothing else". */
  function FirstColumn(v: Key): int
  {
    if v.start == 0 then 1 else 0
  }

  lemma FirstColumnCell(i: nat, j: nat)
    ensures Sum(FirstColumn, Cell(i, j)) == 1
  {
    var cell := Cell(i, j);
    assert cell == cell[..1] + cell[1..];
    SumAppend(FirstColumn, cell[..1], cell[1..]);
    assert cell[..1][..0] == [];
    forall v | v in cell[1..]
      ensures FirstColumn(v) == 0
    {
      var p :| 0 <= p < |cell[1..]| && cell[1..][p] == v;
      assert v == cell[p + 1];
    }
    SumOfZeros(FirstColumn, cell[1..]);
  }

  /** The program is feasible for every word list: `FirstColumn` solves it. */
  lemma AlwaysFeasible(words: seq<string>)
    ensures Solves(FirstColumn, Program(words))
  {
    var n, m := |words|, Width(words);
    forall i, j | 0 <= i < n && 0 <= j < m
      ensures Sum(FirstColumn, Cell(i, j)) == 1
    {
      FirstColumnCell(i, j);
    }
    HorizontalMeaning(FirstColumn, n, m);
    OnlyHorizontalBinds(FirstColumn, words);
  }

  /** Every 0/1 solution of the program has objective `|words| * |words[0]|`,
      so every solution the oracle can return is optimal and the objective
      does not steer the choice between them. */
  lemma EverySolutionOptimal(a: Assignment, words: seq<string>)
    requires Solves(a, Program(words))
    ensures Sum(a, Program(words).objective) == |words| * Width(words)
    ensures Optimal(a, Program(words))
  {
    var n, m := |words|, Width(words);
    OnlyHorizontalBinds(a, words);
    ObjectiveForced(a, n, m);
    forall b | Solves(b, Program(words))
      ensures Sum(a, Program(words).objective) <= Sum(b, Program(words).objective)
    {
      OnlyHorizontalBinds(b, words);
      ObjectiveForced(b, n, m);
    }
  }
}
