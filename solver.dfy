/**
 * `crossword_solver(words, puzzle)` end to end: declare the variables, set
 * the objective, add the three constraint families, hand the problem to the
 * solver, and decode its answer into a dictionary from word to the
 * `(row, start column)` pairs switched on for it.
 */
module Solver {
  import opened Wrappers
  import opened Ilp
  import opened Variables
  import opened Constraints
  import opened Objective
  import opened Decoder

  /** What a solver answer that meets the program gives the caller: every
      word index contributes one pair per row, in row order, and the entry of
      a word holds `|words[0]|` pairs per occurrence of that word. */
  lemma SolutionShape(words: seq<string>, a: Assignment)
    requires words != []
    requires Solves(a, Program(words))
    ensures forall i :: 0 <= i < |words| ==>
      |WordHits(a, i, |words[0]|)| == |words[0]| &&
      forall j :: 0 <= j < |words[0]| ==> WordHits(a, i, |words[0]|)[j].0 == j
    ensures forall w :: w in words ==> |Gathered(words, a, w, |words|)| == |words[0]| * multiset(words)[w]
    ensures forall i :: 0 <= i < |words| && multiset(words)[words[i]] == 1 ==>
      Gathered(words, a, words[i], |words|) == WordHits(a, i, |words[0]|)
  {
    var n, m := |words|, |words[0]|;
    assert words[..n] == words;
    OnlyHorizontalBinds(a, words);
    HorizontalMeaning(a, n, m);
    forall i | 0 <= i < n
      ensures |WordHits(a, i, m)| == m && forall j :: 0 <= j < m ==> WordHits(a, i, m)[j].0 == j
    {
      WordHitsPerRow(a, i, m, n, m);
    }
    forall w | w in words
      ensures |Gathered(words, a, w, n)| == m * multiset(words)[w]
    {
      GatheredLength(words, a, w, n);
    }
    forall i | 0 <= i < n && multiset(words)[words[i]] == 1
      ensures Gathered(words, a, words[i], n) == WordHits(a, i, m)
    {
      forall p | 0 <= p < n && p != i
        ensures words[p] != words[i]
      {
        if words[p] == words[i] {
          OccursTwice(words, i, p);
        }
      }
      GatheredSingle(words, a, i, n);
    }
  }

  /** Two indices holding the same word make its multiplicity at least 2. */
  lemma OccursTwice(words: seq<string>, i: nat, p: nat)
    requires i < |words| && p < |words| && i != p && words[i] == words[p]
    ensures multiset(words)[words[i]] >= 2
  {
    var lo, hi := if i < p then i else p, if i < p then p else i;
    var front, back := words[..hi], words[hi..];
    assert words == front + back;
    assert front[lo] == words[i];
    assert back[0] == words[i];
  }

  /** The whole function. The solver is the parameter `solve`; the decoded
      dictionary is described through `Gathered`, and, when the solver's
      answer meets the program, by its lengths. An empty word list raises
      `IndexError` in the vertical loops, before the solver is reached. */
  method CrosswordSolver(words: seq<string>, solve: LinearProgram -> Assignment) returns (r: Result<Solution>)
    ensures r.Failure? <==> words == []
    ensures r.Failure? ==> r.error == IndexError
    ensures r.Success? ==> r.value.Keys == set w | w in words
    ensures r.Success? ==> forall w :: w in r.value ==> r.value[w] == Gathered(words, solve(Program(words)), w, |words|)
    ensures r.Success? && Solves(solve(Program(words)), Program(words)) ==>
      forall w :: w in r.value ==> |r.value[w]| == |words[0]| * multiset(words)[w]
  {
    var locations := Locations(|words|, Width(words));
    var objective := Locations(|words|, Width(words));
    var constraints := AppendHorizontal([], words);
    var vertical := AppendVertical(constraints, words);
    if vertical.Failure? {
      return Failure(vertical.error);
    }
    constraints := AppendBounds(vertical.value, words);
    var problem := LinearProgram(locations, objective, constraints);
    assert problem == Program(words);
    var a := solve(problem);
    var solution := Decode(words, a);
    if Solves(a, problem) {
      SolutionShape(words, a);
    }
    return Success(solution);
  }

  /** The word list the source runs on: five words, the first of length 5. */
  const Example: seq<string> := ["hello", "halo", "hive", "velvet", "even"]

  /** For that list: 250 variables; 25 horizontal, 25 vertical and 160
      placement constraints, 210 in the program; and whatever 0/1 answer meets them, every word
      ends up with 5 pairs, one per row. */
  lemma ExampleRun(a: Assignment)
    requires Solves(a, Program(Example))
    ensures |Program(Example).variables| == 250
    ensures |Horizontal(5, 5)| == 25 && |Vertical(5, 5)| == 25 && |Bounds(Example, 5, 5)| == 160
    ensures |Program(Example).constraints| == 210
    ensures forall w :: w in Example ==> |Gathered(Example, a, w, 5)| == 5
  {
    LocationsMembers(5, 5);
    VerticalRepeatsHorizontal(5, 5);
    BoundsCount(Example, 5, 5);
    assert TotalStarts(Example, 5) == 6 + 7 + 7 + 5 + 7;
    SolutionShape(Example, a);
    ExampleWordsOnce();
  }

  /** The five example words are pairwise different, so each is listed once. */
  lemma ExampleWordsOnce()
    ensures forall w :: w in Example ==> multiset(Example)[w] == 1
  {
    assert "halo"[1] != "hive"[1] && "halo"[0] != "even"[0] && "hive"[0] != "even"[0];
    forall i | 0 <= i < |Example|
      ensures multiset(Example)[Example[i]] == 1
    {
      ListedOnce(Example, i);
    }
  }

  /** A word held by only one index has multiplicity 1. */
  lemma ListedOnce(words: seq<string>, i: nat)
    requires i < |words|
    requires forall p :: 0 <= p < |words| && p != i ==> words[p] != words[i]
    ensures multiset(words)[words[i]] == 1
  {
    var w := words[i];
    assert words == words[..i] + [w] + words[i + 1..];
    assert w !in words[..i] && w !in words[i + 1..];
  }
}
