/**
 * The decision-variable index space of `crossword_solver`: one binary
 * variable per triple `(i, j, k)` with `i` a word index, `j` below the length
 * of the FIRST word (not the grid height) and `k` below the fixed span 10.
 * The same comprehension is written twice in the source, once to declare the
 * variables and once as the objective; here it is one function.
 */
module Variables {
  import opened Ilp

  /** The hard-coded number of candidate start columns, `range(10)`. */
  const Span: nat := 10

  /** `len(words[0])`, the bound of every `j` loop. The source evaluates
      `words[0]` only inside a loop over the words, so with no words this
      value is never looked at; it is 0 here for that case. */
  function Width(words: seq<string>): nat
  {
    if |words| == 0 then 0 else |words[0]|
  }

  /** `v` is one of the declared keys for `n` words and row count `m`. */
  predicate InSpace(v: Key, n: nat, m: nat)
  {
    v.word < n && v.row < m && v.start < Span
  }

  /** `[x[i, j, k] for k in range(10)]`. */
  function Cell(i: nat, j: nat): seq<Key>
  {
    seq(Span, k requires 0 <= k < Span => Key(i, j, k))
  }

  /** The keys of word `i`, `j`-outer and `k`-inner, for `j < m`. */
  function WordKeys(i: nat, m: nat): seq<Key>
  {
    if m == 0 then [] else WordKeys(i, m - 1) + Cell(i, m - 1)
  }

  /** `[(i, j, k) for i in range(n) for j in range(m) for k in range(10)]`. */
  function Locations(n: nat, m: nat): seq<Key>
  {
    if n == 0 then [] else Locations(n - 1, m) + WordKeys(n - 1, m)
  }

  /** The keys of the variable dictionary `x`. */
  function Declared(n: nat, m: nat): set<Key>
  {
    set v | v in Locations(n, m)
  }

  /** Every in-range cell's ten variables sum to 1: the meaning of the
      horizontal family. */
  predicate OnePerCell(a: Assignment, n: nat, m: nat)
  {
    forall i, j :: 0 <= i < n && 0 <= j < m ==> Sum(a, Cell(i, j)) == 1
  }

  /** No element is listed twice. */
  predicate Distinct<T(==)>(s: seq<T>)
  {
    forall p, q :: 0 <= p < q < |s| ==> s[p] != s[q]
  }

  lemma CellMembers(i: nat, j: nat)
    ensures |Cell(i, j)| == Span
    ensures forall v :: v in Cell(i, j) <==> v.word == i && v.row == j && v.start < Span
    ensures Distinct(Cell(i, j))
  {
    forall v: Key | v.word == i && v.row == j && v.start < Span
      ensures v in Cell(i, j)
    {
      assert Cell(i, j)[v.start] == v;
    }
  }

  lemma {:induction false} DistinctAppend<T>(s: seq<T>, t: seq<T>)
    requires Distinct(s) && Distinct(t)
    requires forall v :: v in s ==> v !in t
    ensures Distinct(s + t)
  {
    forall p, q | 0 <= p < q < |s + t|
      ensures (s + t)[p] != (s + t)[q]
    {
      if q < |s| {
        assert (s + t)[p] == s[p] && (s + t)[q] == s[q];
      } else if p >= |s| {
        assert (s + t)[p] == t[p - |s|] && (s + t)[q] == t[q - |s|];
      } else {
        assert (s + t)[p] == s[p] && s[p] in s;
        assert (s + t)[q] == t[q - |s|] && t[q - |s|] in t;
      }
    }
  }

  /** Word `i`'s keys are exactly its `m * 10` triples, each once. */
  lemma {:induction false} WordKeysMembers(i: nat, m: nat)
    ensures |WordKeys(i, m)| == m * Span
    ensures forall v :: v in WordKeys(i, m) <==> v.word == i && v.row < m && v.start < Span
    ensures Distinct(WordKeys(i, m))
  {
    if m > 0 {
      WordKeysMembers(i, m - 1);
      CellMembers(i, m - 1);
      DistinctAppend(WordKeys(i, m - 1), Cell(i, m - 1));
    }
  }

  /** The declared keys are exactly the triples of the index space, listed
      once each, `n * m * 10` of them. */
  lemma {:induction false} LocationsMembers(n: nat, m: nat)
    ensures |Locations(n, m)| == n * m * Span
    ensures forall v :: v in Locations(n, m) <==> InSpace(v, n, m)
    ensures Distinct(Locations(n, m))
  {
    if n > 0 {
      LocationsMembers(n - 1, m);
      WordKeysMembers(n - 1, m);
      DistinctAppend(Locations(n - 1, m), WordKeys(n - 1, m));
      assert n * m * Span == (n - 1) * m * Span + m * Span;
    }
  }

  /** A duplicate-free list has as many distinct elements as entries. */
  lemma {:induction false} DistinctCard(s: seq<Key>)
    requires Distinct(s)
    ensures |set v | v in s| == |s|
    decreases |s|
  {
    if s != [] {
      var init, last := s[..|s| - 1], s[|s| - 1];
      assert Distinct(init);
      DistinctCard(init);
      assert (set v | v in s) == (set v | v in init) + {last};
      assert last !in (set v | v in init);
    }
  }

  /** In a duplicate-free list every element occurs once or not at all. */
  lemma {:induction false} DistinctOnce<T>(s: seq<T>, x: T)
    requires Distinct(s)
    ensures multiset(s)[x] == if x in s then 1 else 0
    decreases |s|
  {
    if s != [] {
      var init, last := s[..|s| - 1], s[|s| - 1];
      assert s == init + [last];
      assert Distinct(init);
      DistinctOnce(init, x);
      assert last !in init;
    }
  }

  /** Two duplicate-free lists with the same elements are permutations of
      each other. */
  lemma SameElements<T>(s: seq<T>, t: seq<T>)
    requires Distinct(s) && Distinct(t)
    requires forall x :: x in s <==> x in t
    ensures multiset(s) == multiset(t)
  {
    forall x
      ensures multiset(s)[x] == multiset(t)[x]
    {
      DistinctOnce(s, x);
      DistinctOnce(t, x);
    }
  }

  /** `LpVariable.dicts("x", locations)` declares one variable per distinct
      key: the dictionary holds exactly the index space, `n * m * 10` entries. */
  lemma VariableCount(n: nat, m: nat)
    ensures forall v :: v in Declared(n, m) <==> InSpace(v, n, m)
    ensures |Declared(n, m)| == n * m * Span
  {
    LocationsMembers(n, m);
    DistinctCard(Locations(n, m));
  }
}
