# crossword_solver as a 0/1 integer program

`crossword_solver(words, puzzle)` encodes the placement of a list of words as
a 0/1 integer linear program and hands it to a solver. It then decodes the
solver's answer into a dictionary that maps each word to a list of
`(row, start column)` pairs. Everything before and after the solver call is
modelled here:

- the index space of the decision variables `x[i, j, k]`:
  - `i` is a word index;
  - `j` runs below the length of the FIRST word;
  - `k` runs below the fixed span 10;
- the objective, the sum of all variables, minimised;
- the three constraint families, in the order their loops add them:
  - one "horizontal" `== 1` equality per `(i, j)`, word-major;
  - one "vertical" `== 1` equality per `(j, i)`, row-major;
  - the placement bounds `sum(window) <= len(word)`;
- the decoding loops, which append `(j, k)` to the list of `words[i]`
  whenever `x[i, j, k]` is 1.

The solver is a parameter `solve: LinearProgram -> Assignment`. Facts about
its answer are stated under the hypothesis `Solves(a, program)`: `a` is 0 or 1
on every declared variable and meets every constraint.

What the proofs establish about the encoding:

- The vertical family lists the same equalities as the horizontal family,
  only in another order.
- The placement bounds can never be violated by a 0/1 assignment.
- So the horizontal family alone decides which answers are solutions.
- The program is feasible for every word list: start column 0 in every row
  solves it.
- The objective equals `len(words) * len(words[0])` on every solution, so
  every solution is optimal.
- Under a solution, each word index contributes exactly one pair per row, in
  row order.
- A word listed `c` times gets `c * len(words[0])` pairs, because duplicate
  words share one dictionary entry.

Two consequences of the code as written:

- The "row" dimension is `len(words[0])`; the grid argument `puzzle` is
  never read.
- With an empty word list the code raises `IndexError` at
  `range(len(words[0]))` in the vertical loops (`cross_csp.py:19`). The
  loops at lines 7, 11 and 14 never reach `words[0]` in that case, because
  they visit no word. `AppendVertical` and `CrosswordSolver` return
  `Failure(IndexError)` for that case.

Modules:

| file | module | contents |
|---|---|---|
| `wrappers.dfy` | `Wrappers` | `Result` and the `IndexError` case |
| `arithmetic.dfy` | `Arithmetic` | three facts about multiplication |
| `ilp.dfy` | `Ilp` | keys, constraints, programs, assignments, `Sum`, `Solves` |
| `variables.dfy` | `Variables` | the index space (lines 7-8, 11) |
| `constraints.dfy` | `Constraints` | the three families and the loops that build them (lines 14-27) |
| `objective.dfy` | `Objective` | the program, its objective, feasibility and optimality |
| `decoder.dfy` | `Decoder` | the decoding loops (lines 29-34) and the shape of their result |
| `solver.dfy` | `Solver` | `crossword_solver` end to end, and the five-word example |

## Model

| member | source | states |
|---|---|---|
| Variables.LocationsMembers | cross_csp.py:7 | `locations` has `n*m*10` entries; a key is in it iff `i < n`, `j < m` and `k < 10`; no key appears twice |
| Variables.VariableCount | cross_csp.py:7-8 | the variable dictionary `x` has exactly the keys of the index space, `n*m*10` of them |
| Constraints.AppendHorizontal | cross_csp.py:14-16 | the nested `i`/`j` loops append exactly the horizontal family to the constraints already present |
| Constraints.HorizontalSize | cross_csp.py:14-16 | the horizontal family has `n*m` equalities |
| Constraints.HorizontalAt | cross_csp.py:14-16 | the equality for `(i, j)` sits at position `i*m + j` (word-major order) |
| Constraints.HorizontalMembers | cross_csp.py:14-16 | every in-range `(i, j)` has its `sum(x[i, j, 0..9]) == 1`, and every horizontal constraint is one of these |
| Constraints.AppendVertical | cross_csp.py:19-21 | an empty word list raises `IndexError`; otherwise the `j`/`i` loops append exactly the vertical family |
| Constraints.VerticalSize | cross_csp.py:19-21 | the vertical family has `n*m` equalities |
| Constraints.VerticalAt | cross_csp.py:19-21 | the equality for `(i, j)` sits at position `j*n + i` (row-major order) |
| Constraints.VerticalMembers | cross_csp.py:19-21 | every in-range `(i, j)` has its equality in the vertical family, and every vertical constraint is one of these |
| Constraints.HorizontalDistinct | cross_csp.py:14-16 | no horizontal equality is added twice |
| Constraints.VerticalDistinct | cross_csp.py:19-21 | no vertical equality is added twice |
| Constraints.VerticalRepeatsHorizontal | cross_csp.py:14-21 | both families have `n*m` equalities and the same members, and each is a permutation of the other (equal multisets) |
| Constraints.VerticalAddsNothing | cross_csp.py:14-21 | an assignment meets horizontal plus vertical iff it meets horizontal alone |
| Constraints.AppendBounds | cross_csp.py:24-27 | the placement loops append exactly the bound family, word by word |
| Constraints.AppendWordBounds | cross_csp.py:25-27 | the `j` loop for one word appends that word's bounds row by row |
| Constraints.AppendWindows | cross_csp.py:26-27 | the `k` loop appends one `sum(window at k) <= len` bound per start in `range(10 - len + 1)` |
| Constraints.WordBoundsCount | cross_csp.py:25-27 | a word of length `L` gets `max(0, 11 - L)` bounds per row, and none at all when `L > 10` |
| Constraints.BoundsCount | cross_csp.py:24-27 | the bound family has `m * sum of max(0, 11 - len(words[i]))` constraints |
| Constraints.BoundsShape | cross_csp.py:24-27 | every bound is `sum(terms) <= len(terms)` over declared keys only: no window reaches past start column 9 |
| Constraints.BoundsNonBinding | cross_csp.py:24-27 | every assignment that is 0/1 on the declared keys meets every bound |
| Constraints.OnlyHorizontalBinds | cross_csp.py:14-27 | a 0/1 assignment meets all constraints iff it meets the horizontal family |
| Objective.HorizontalMeaning | cross_csp.py:14-16 | the horizontal family holds iff every in-range cell's ten variables sum to 1 |
| Objective.ExactlyOneStart | cross_csp.py:14-16 | under 0/1 values meeting the horizontal family, every in-range `(i, j)` has exactly one start column `k` with `x[i, j, k] == 1` |
| Objective.ObjectiveForced | cross_csp.py:11-16 | under the horizontal family the objective equals `n*m` |
| Objective.AlwaysFeasible | cross_csp.py:7-27 | "start column 0 in every row" solves the program for every word list |
| Objective.EverySolutionOptimal | cross_csp.py:4-27 | every solution has objective `len(words) * len(words[0])` and is optimal for the minimising program |
| Decoder.Decode | cross_csp.py:29-34 | the dictionary has one key per distinct word; the entry for `w` is the hits of every index holding `w`, in index order |
| Decoder.DecodeWord | cross_csp.py:31-34 | the `j`/`k` loops for index `i` append word `i`'s hits to its entry and change no other entry |
| Decoder.DecodeCell | cross_csp.py:32-34 | the `k` loop appends row `j`'s hits to the entry of the word and changes no other entry |
| Decoder.CellHitsMembers | cross_csp.py:32-34 | a pair is appended for row `j` iff its start is below the bound and its variable is 1; the pairs ascend |
| Decoder.CellHitsCount | cross_csp.py:32-34 | under a 0/1 assignment, the number of pairs for row `j` is the sum of that row's variables |
| Decoder.WordHitsMembers | cross_csp.py:31-34 | word `i`'s pairs are exactly its switched-on `(j, k)`, in strictly ascending `(row, start)` order |
| Decoder.WordHitsPerRow | cross_csp.py:29-34 | under one-per-row 0/1 values, word `i` gets one pair per row: the `j`-th pair is in row `j`, at a start whose variable is 1 |
| Decoder.GatheredLength | cross_csp.py:29-34 | when every index contributes `m` pairs, the entry for `w` holds `m` pairs per occurrence of `w` |
| Decoder.GatheredSingle | cross_csp.py:29-34 | a word held by a single index gets exactly that index's pairs |
| Solver.SolutionShape | cross_csp.py:28-34 | under a solution: `m` pairs per index in row order; `m * count(w)` pairs per word; a word listed once gets its own pairs |
| Solver.CrosswordSolver | cross_csp.py:3-36 | fails with `IndexError` iff `words` is empty; otherwise the keys are the distinct words, the entries are the decoded pairs of the solver's answer, and under a solution each entry has `len(words[0]) * count(w)` pairs |
| Solver.ExampleRun | cross_csp.py:45-47 | the five-word list gives 250 variables, 25 + 25 equalities and 160 bounds, 210 constraints in the program, and 5 pairs per word under any solution |

## Left out

- The solver itself (`problem.solve()`, `cross_csp.py:28`) is PuLP foreign code. It is the parameter `solve`. Its statuses (infeasible, unbounded, not solved) are not modelled, because the program is proved feasible.
- `value(x[i, j, k])` returns a float or `None`. Here an assignment gives every key an integer, and the decoder compares it with 1 exactly as line 33 does.
- The problem's name and `sense=1` (line 4) are represented only by `Optimal`, which states minimisation.
- The `puzzle` argument is never read by the code, so it is not a parameter of the model.
- The order of the dictionary's keys (Python insertion order) is not modelled: the solution is a `map`. The order of the pairs inside each entry is modelled.
- The module-level driver (`cross_csp.py:37-53`) is left out: the puzzle literal, the call on the example list, and the printing under `if solution:`. It is I/O. Its call is covered by `ExampleRun`.
