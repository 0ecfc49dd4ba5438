/**
 * The three constraint families `crossword_solver` adds to its problem, in
 * the order its loops add them: the "horizontal" equalities (`i` outer, `j`
 * inner), the "vertical" equalities (`j` outer, `i` inner), and the
 * placement bounds (`i`, `j`, then start `k`). Each family is specified by a
 * function listing its constraints in order and built by a method whose
 * nested loops append them one at a time, as `problem += ...` does.
 */
module Constraints {
  import opened Wrappers
  import opened Ilp
  import opened Variables
  import opened Arithmetic

  /** `lpSum([x[i, j, k] for k in range(10)]) == 1`. */
  function ExactlyOne(i: nat, j: nat): Constraint
  {
    Constraint(Cell(i, j), Eq, 1)
  }

  /** The equalities for word `i` and rows `0 .. m - 1`. */
  function Row(i: nat, m: nat): seq<Constraint>
  {
    seq(m, j requires 0 <= j => ExactlyOne(i, j))
  }

  /** The equalities for row `j` and words `0 .. n - 1`. */
  function Column(j: nat, n: nat): seq<Constraint>
  {
    seq(n, i requires 0 <= i => ExactlyOne(i, j))
  }

  /** The horizontal family for `n` words and `m` rows, word by word. */
  function Horizontal(n: nat, m: nat): seq<Constraint>
  {
    if n == 0 then [] else Horizontal(n - 1, m) + Row(n - 1, m)
  }

  /** The vertical family for `n` words and `m` rows, row by row. */
  function Vertical(n: nat, m: nat): seq<Constraint>
  {
    if m == 0 then [] else Vertical(n, m - 1) + Column(m - 1, n)
  }

  /** `[x[i, j, k + l] for l in range(len)]`. */
  function Window(i: nat, j: nat, k: nat, len: nat): seq<Key>
  {
    seq(len, l requires 0 <= l => Key(i, j, k + l))
  }

  /** `lpSum(window) <= len`. */
  function AtMost(i: nat, j: nat, k: nat, len: nat): Constraint
  {
    Constraint(Window(i, j, k, len), Le, len)
  }

  /** The number of start columns `range(10 - len + 1)` yields: none once
      the word is longer than 10. */
  function Starts(len: nat): nat
  {
    if len <= Span then Span + 1 - len else 0
  }

  /** The bounds for word `i` (of length `len`) in row `j`, starts `0 .. count - 1`. */
  function Windows(i: nat, j: nat, len: nat, count: nat): seq<Constraint>
  {
    seq(count, k requires 0 <= k => AtMost(i, j, k, len))
  }

  /** The bounds for word `i` (of length `len`) over rows `0 .. m - 1`. */
  function WordBounds(i: nat, len: nat, m: nat): seq<Constraint>
  {
    if m == 0 then [] else WordBounds(i, len, m - 1) + Windows(i, m - 1, len, Starts(len))
  }

  /** The placement-bound family for the first `n` words. */
  function Bounds(words: seq<string>, n: nat, m: nat): seq<Constraint>
    requires n <= |words|
  {
    if n == 0 then [] else Bounds(words, n - 1, m) + WordBounds(n - 1, |words[n - 1]|, m)
  }

  /** The constraints `crossword_solver` hands to the solver, in order. */
  function AllConstraints(words: seq<string>): seq<Constraint>
  {
    var n, m := |words|, Width(words);
    Horizontal(n, m) + Vertical(n, m) + Bounds(words, n, m)
  }

  // ---------------------------------------------------------------------
  // Building the families, loop by loop
  // ---------------------------------------------------------------------

  /** The horizontal loops: one equality per `(i, j)`, `i` outer. */
  method AppendHorizontal(cs: seq<Constraint>, words: seq<string>) returns (out: seq<Constraint>)
    ensures out == cs + Horizontal(|words|, Width(words))
  {
    out := cs;
    var i := 0;
    while i < |words|
      invariant 0 <= i <= |words|
      invariant out == cs + Horizontal(i, Width(words))
    {
      var j := 0;
      while j < |words[0]|
        invariant 0 <= j <= |words[0]|
        invariant out == cs + Horizontal(i, Width(words)) + Row(i, j)
      {
        assert Row(i, j + 1) == Row(i, j) + [ExactlyOne(i, j)];
        out := out + [ExactlyOne(i, j)];
        j := j + 1;
      }
      i := i + 1;
    }
  }

  /** The vertical loops: one equality per `(j, i)`, `j` outer. Their outer
      `range(len(words[0]))` is evaluated before any word is visited, so an
      empty word list raises `IndexError` here. */
  method AppendVertical(cs: seq<Constraint>, words: seq<string>) returns (r: Result<seq<Constraint>>)
    ensures words == [] ==> r == Failure(IndexError)
    ensures words != [] ==> r == Success(cs + Vertical(|words|, |words[0]|))
  {
    if words == [] {
      return Failure(IndexError);
    }
    var out := cs;
    var j := 0;
    while j < |words[0]|
      invariant 0 <= j <= |words[0]|
      invariant out == cs + Vertical(|words|, j)
    {
      var i := 0;
      while i < |words|
        invariant 0 <= i <= |words|
        invariant out == cs + Vertical(|words|, j) + Column(j, i)
      {
        assert Column(j, i + 1) == Column(j, i) + [ExactlyOne(i, j)];
        out := out + [ExactlyOne(i, j)];
        i := i + 1;
      }
      j := j + 1;
    }
    return Success(out);
  }

  /** The placement loops: for each `(i, j)` and each start `k` in
      `range(10 - len(words[i]) + 1)`, one bound over the window at `k`. */
  method AppendBounds(cs: seq<Constraint>, words: seq<string>) returns (out: seq<Constraint>)
    ensures out == cs + Bounds(words, |words|, Width(words))
  {
    ghost var m := Width(words);
    out := cs;
    var i := 0;
    while i < |words|
      invariant 0 <= i <= |words|
      invariant out == cs + Bounds(words, i, m)
    {
      ghost var before := out;
      out := AppendWordBounds(out, i, |words[i]|, |words[0]|);
      BoundsStep(cs, before, out, words, i, m);
      i := i + 1;
    }
  }

  /** One pass of the outer placement loop extends the family by word `i`'s
      bounds. */
  lemma BoundsStep(cs: seq<Constraint>, before: seq<Constraint>, after: seq<Constraint>, words: seq<string>, i: nat, m: nat)
    requires i < |words|
    requires before == cs + Bounds(words, i, m)
    requires after == before + WordBounds(i, |words[i]|, m)
    ensures after == cs + Bounds(words, i + 1, m)
  {
  }

  /** The `j` loop for word `i` of length `len`, over `rows` rows. */
  method AppendWordBounds(cs: seq<Constraint>, i: nat, len: nat, rows: nat) returns (out: seq<Constraint>)
    ensures out == cs + WordBounds(i, len, rows)
  {
    out := cs;
    var j := 0;
    while j < rows
      invariant 0 <= j <= rows
      invariant out == cs + WordBounds(i, len, j)
    {
      out := AppendWindows(out, i, j, len);
      j := j + 1;
    }
  }

  /** The innermost placement loop, over `k in range(10 - len + 1)`. */
  method AppendWindows(cs: seq<Constraint>, i: nat, j: nat, len: nat) returns (out: seq<Constraint>)
    ensures out == cs + Windows(i, j, len, Starts(len))
  {
    out := cs;
    var k := 0;
    while k < Span - len + 1
      invariant 0 <= k <= Starts(len)
      invariant out == cs + Windows(i, j, len, k)
    {
      assert Windows(i, j, len, k + 1) == Windows(i, j, len, k) + [AtMost(i, j, k, len)];
      out := out + [AtMost(i, j, k, len)];
      k := k + 1;
    }
  }

  // ---------------------------------------------------------------------
  // The equality families
  // ---------------------------------------------------------------------

  /** The horizontal family has one equality per `(i, j)`. */
  lemma {:induction false} HorizontalSize(n: nat, m: nat)
    ensures |Horizontal(n, m)| == n * m
  {
    if n > 0 {
      HorizontalSize(n - 1, m);
      MulPred(n, m);
    }
  }

  /** The equality for `(i, j)` sits at position `i * m + j` of the
      horizontal family: word-major order. */
  lemma {:induction false} HorizontalAt(n: nat, m: nat, i: nat, j: nat)
    requires i < n && j < m
    ensures i * m + j < |Horizontal(n, m)| && Horizontal(n, m)[i * m + j] == ExactlyOne(i, j)
  {
    HorizontalSize(n, m);
    HorizontalSize(n - 1, m);
    if i < n - 1 {
      HorizontalAt(n - 1, m, i, j);
      MulStep(i, n - 1, m);
    } else {
      MulPred(n, m);
      assert Row(n - 1, m)[j] == ExactlyOne(i, j);
    }
  }

  /** So has the vertical family. */
  lemma {:induction false} VerticalSize(n: nat, m: nat)
    ensures |Vertical(n, m)| == n * m
  {
    if m > 0 {
      VerticalSize(n, m - 1);
      MulPred(m, n);
    }
  }

  /** The equality for `(i, j)` sits at position `j * n + i` of the
      vertical family: row-major order. */
  lemma {:induction false} VerticalAt(n: nat, m: nat, i: nat, j: nat)
    requires i < n && j < m
    ensures j * n + i < |Vertical(n, m)| && Vertical(n, m)[j * n + i] == ExactlyOne(i, j)
  {
    VerticalSize(n, m);
    VerticalSize(n, m - 1);
    if j < m - 1 {
      VerticalAt(n, m - 1, i, j);
      MulStep(j, m - 1, n);
    } else {
      MulPred(m, n);
      assert Column(m - 1, n)[i] == ExactlyOne(i, j);
    }
  }

  /** Every horizontal equality is `ExactlyOne(i, j)` for an in-range pair,
      and every in-range pair has one. */
  lemma {:induction false} HorizontalMembers(n: nat, m: nat)
    ensures forall i, j :: 0 <= i < n && 0 <= j < m ==> ExactlyOne(i, j) in Horizontal(n, m)
    ensures forall c :: c in Horizontal(n, m) ==> exists i, j :: 0 <= i < n && 0 <= j < m && c == ExactlyOne(i, j)
  {
    if n > 0 {
      HorizontalMembers(n - 1, m);
      forall c | c in Horizontal(n, m)
        ensures exists i, j :: 0 <= i < n && 0 <= j < m && c == ExactlyOne(i, j)
      {
        if c !in Horizontal(n - 1, m) {
          var p :| 0 <= p < m && Row(n - 1, m)[p] == c;
          assert c == ExactlyOne(n - 1, p);
        }
      }
      forall i, j | 0 <= i < n && 0 <= j < m
        ensures ExactlyOne(i, j) in Horizontal(n, m)
      {
        if i == n - 1 {
          assert Row(n - 1, m)[j] == ExactlyOne(i, j);
        }
      }
    }
  }

  /** The vertical family, membership-wise. */
  lemma {:induction false} VerticalMembers(n: nat, m: nat)
    ensures forall i, j :: 0 <= i < n && 0 <= j < m ==> ExactlyOne(i, j) in Vertical(n, m)
    ensures forall c :: c in Vertical(n, m) ==> exists i, j :: 0 <= i < n && 0 <= j < m && c == ExactlyOne(i, j)
  {
    if m > 0 {
      VerticalMembers(n, m - 1);
      forall c | c in Vertical(n, m)
        ensures exists i, j :: 0 <= i < n && 0 <= j < m && c == ExactlyOne(i, j)
      {
        if c !in Vertical(n, m - 1) {
          var p :| 0 <= p < n && Column(m - 1, n)[p] == c;
          assert c == ExactlyOne(p, m - 1);
        }
      }
      forall i, j | 0 <= i < n && 0 <= j < m
        ensures ExactlyOne(i, j) in Vertical(n, m)
      {
        if j == m - 1 {
          assert Column(m - 1, n)[i] == ExactlyOne(i, j);
        }
      }
    }
  }

  /** Different cells have different equalities. */
  lemma ExactlyOneInjective(i: nat, j: nat, i': nat, j': nat)
    ensures ExactlyOne(i, j) == ExactlyOne(i', j') ==> i == i' && j == j'
  {
    assert Cell(i, j)[0] == Key(i, j, 0) && Cell(i', j')[0] == Key(i', j', 0);
  }

  /** No horizontal equality is added twice. */
  lemma {:induction false} HorizontalDistinct(n: nat, m: nat)
    ensures Distinct(Horizontal(n, m))
  {
    if n > 0 {
      HorizontalDistinct(n - 1, m);
      HorizontalMembers(n - 1, m);
      var row := Row(n - 1, m);
      forall p, q | 0 <= p < q < |row|
        ensures row[p] != row[q]
      {
        ExactlyOneInjective(n - 1, p, n - 1, q);
      }
      forall c | c in Horizontal(n - 1, m)
        ensures c !in row
      {
        var i, j :| 0 <= i < n - 1 && 0 <= j < m && c == ExactlyOne(i, j);
        forall p | 0 <= p < |row|
          ensures row[p] != c
        {
          ExactlyOneInjective(i, j, n - 1, p);
        }
      }
      DistinctAppend(Horizontal(n - 1, m), row);
    }
  }

  /** No vertical equality is added twice. */
  lemma {:induction false} VerticalDistinct(n: nat, m: nat)
    ensures Distinct(Vertical(n, m))
  {
    if m > 0 {
      VerticalDistinct(n, m - 1);
      VerticalMembers(n, m - 1);
      var column := Column(m - 1, n);
      forall p, q | 0 <= p < q < |column|
        ensures column[p] != column[q]
      {
        ExactlyOneInjective(p, m - 1, q, m - 1);
      }
      forall c | c in Vertical(n, m - 1)
        ensures c !in column
      {
        var i, j :| 0 <= i < n && 0 <= j < m - 1 && c == ExactlyOne(i, j);
        forall p | 0 <= p < |column|
          ensures column[p] != c
        {
          ExactlyOneInjective(i, j, p, m - 1);
        }
      }
      DistinctAppend(Vertical(n, m - 1), column);
    }
  }

  /** The vertical loops add exactly the constraints the horizontal loops
      already added, as many of them, in another order: the two families are
      permutations of each other. */
  lemma VerticalRepeatsHorizontal(n: nat, m: nat)
    ensures |Vertical(n, m)| == |Horizontal(n, m)| == n * m
    ensures forall c :: c in Vertical(n, m) <==> c in Horizontal(n, m)
    ensures multiset(Vertical(n, m)) == multiset(Horizontal(n, m))
  {
    HorizontalDistinct(n, m);
    VerticalDistinct(n, m);
    HorizontalSize(n, m);
    VerticalSize(n, m);
    HorizontalMembers(n, m);
    VerticalMembers(n, m);
    SameElements(Vertical(n, m), Horizontal(n, m));
  }

  /** So adding the vertical family never changes which assignments are
      feasible. */
  lemma VerticalAddsNothing(a: Assignment, n: nat, m: nat)
    ensures SatisfiesAll(a, Horizontal(n, m) + Vertical(n, m)) <==> SatisfiesAll(a, Horizontal(n, m))
  {
    VerticalRepeatsHorizontal(n, m);
    SatisfiesAllAppend(a, Horizontal(n, m), Vertical(n, m));
  }

  // ---------------------------------------------------------------------
  // The placement-bound family
  // ---------------------------------------------------------------------

  /** Word `i` gets `max(0, 11 - len)` bounds per row; none when it is
      longer than 10. */
  lemma {:induction false} WordBoundsCount(i: nat, len: nat, m: nat)
    ensures |WordBounds(i, len, m)| == m * Starts(len)
    ensures Starts(len) == (if Span + 1 - len > 0 then Span + 1 - len else 0)
    ensures Span < len ==> WordBounds(i, len, m) == []
  {
    if m > 0 {
      WordBoundsCount(i, len, m - 1);
      MulPred(m, Starts(len));
    }
  }

  /** `Σ max(0, 11 - len(words[i]))` over the first `n` words. */
  function TotalStarts(words: seq<string>, n: nat): nat
    requires n <= |words|
  {
    if n == 0 then 0 else TotalStarts(words, n - 1) + Starts(|words[n - 1]|)
  }

  /** The family has `m * Σ max(0, 11 - len(words[i]))` bounds. */
  lemma {:induction false} BoundsCount(words: seq<string>, n: nat, m: nat)
    requires n <= |words|
    ensures |Bounds(words, n, m)| == m * TotalStarts(words, n)
  {
    if n > 0 {
      BoundsCount(words, n - 1, m);
      WordBoundsCount(n - 1, |words[n - 1]|, m);
      MulAdd(m, TotalStarts(words, n - 1), Starts(|words[n - 1]|));
    }
  }

  /** One bound's shape: relation `<=`, right-hand side equal to its number
      of terms, and every term `k + l` a declared start column. */
  predicate BoundShape(c: Constraint, n: nat, m: nat)
  {
    c.rel == Le && c.rhs == |c.terms| && forall v :: v in c.terms ==> InSpace(v, n, m)
  }

  lemma WindowsShape(i: nat, j: nat, len: nat, n: nat, m: nat)
    requires i < n && j < m
    ensures forall c :: c in Windows(i, j, len, Starts(len)) ==> BoundShape(c, n, m)
  {
    forall c | c in Windows(i, j, len, Starts(len))
      ensures BoundShape(c, n, m)
    {
      var k :| 0 <= k < Starts(len) && Windows(i, j, len, Starts(len))[k] == c;
      forall v | v in c.terms
        ensures InSpace(v, n, m)
      {
        var l :| 0 <= l < len && Window(i, j, k, len)[l] == v;
        assert v.start == k + l < Span;
      }
    }
  }

  lemma {:induction false} WordBoundsShape(i: nat, len: nat, m: nat, n: nat, rows: nat)
    requires i < n && rows <= m
    ensures forall c :: c in WordBounds(i, len, rows) ==> BoundShape(c, n, m)
  {
    if rows > 0 {
      WordBoundsShape(i, len, m, n, rows - 1);
      WindowsShape(i, rows - 1, len, n, m);
    }
  }

  /** Every placement bound is `lpSum(terms) <= |terms|` over declared keys
      only: the window never reaches past start column 9. */
  lemma {:induction false} BoundsShape(words: seq<string>, n: nat, m: nat)
    requires n <= |words|
    ensures forall c :: c in Bounds(words, n, m) ==> BoundShape(c, n, m)
  {
    if n > 0 {
      BoundsShape(words, n - 1, m);
      WordBoundsShape(n - 1, |words[n - 1]|, m, n, m);
      forall c | c in Bounds(words, n - 1, m)
        ensures BoundShape(c, n, m)
      {
        assert BoundShape(c, n - 1, m);
      }
    }
  }

  /** Any assignment that is 0/1 on the declared keys meets every placement
      bound: the family is non-binding. */
  lemma BoundsNonBinding(a: Assignment, words: seq<string>, m: nat)
    requires BinaryOn(a, Locations(|words|, m))
    ensures SatisfiesAll(a, Bounds(words, |words|, m))
  {
    var n := |words|;
    LocationsMembers(n, m);
    BoundsShape(words, n, m);
    forall c | c in Bounds(words, n, m)
      ensures Satisfies(a, c)
    {
      assert BinaryOn(a, c.terms);
      SumOfBinaries(a, c.terms);
    }
  }

  /** Dropping both the vertical and the bound families leaves the set of
      0/1 solutions unchanged. */
  lemma OnlyHorizontalBinds(a: Assignment, words: seq<string>)
    requires BinaryOn(a, Locations(|words|, Width(words)))
    ensures SatisfiesAll(a, AllConstraints(words)) <==> SatisfiesAll(a, Horizontal(|words|, Width(words)))
  {
    var n, m := |words|, Width(words);
    VerticalAddsNothing(a, n, m);
    BoundsNonBinding(a, words, m);
    SatisfiesAllAppend(a, Horizontal(n, m) + Vertical(n, m), Bounds(words, n, m));
  }
}
