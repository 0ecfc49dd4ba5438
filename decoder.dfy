/**
 * The decoding loop of `crossword_solver`: starting from an empty list per
 * distinct word, it walks `(i, j, k)` in ascending order and appends `(j, k)`
 * to the list of `words[i]` whenever `x[i, j, k]` is 1. Duplicate words share
 * one dictionary entry, so their lists run together in index order.
 */
module Decoder {
  import opened Ilp
  import opened Variables
  import opened Arithmetic

  /** A `(row, start column)` pair as the decoder appends it. */
  type Placement = (nat, nat)

  /** `solution`: word -> list of placements. */
  type Solution = map<string, seq<Placement>>

  /** The pairs `(j, k')` with `k' < k` whose variable for word `i` is 1. */
  function CellHits(a: Assignment, i: nat, j: nat, k: nat): seq<Placement>
  {
    if k == 0 then [] else CellHits(a, i, j, k - 1) + (if a(Key(i, j, k - 1)) == 1 then [(j, k - 1)] else [])
  }

  /** Word `i`'s pairs over rows `0 .. m - 1`, in the decoder's order. */
  function WordHits(a: Assignment, i: nat, m: nat): seq<Placement>
  {
    if m == 0 then [] else WordHits(a, i, m - 1) + CellHits(a, i, m - 1, Span)
  }

  /** What the first `n` words put in the entry for `w`: word `i`'s pairs for
      each `i < n` with `words[i] == w`, in index order. */
  function Gathered(words: seq<string>, a: Assignment, w: string, n: nat): seq<Placement>
    requires n <= |words|
  {
    if n == 0 then []
    else Gathered(words, a, w, n - 1) + (if words[n - 1] == w then WordHits(a, n - 1, Width(words)) else [])
  }

  /** The decoding loop: `{word: [] for word in words}`, then one pass per
      word index. */
  method Decode(words: seq<string>, a: Assignment) returns (solution: Solution)
    ensures solution.Keys == set w | w in words
    ensures forall w :: w in solution ==> solution[w] == Gathered(words, a, w, |words|)
  {
    solution := map w | w in words :: [];
    var i := 0;
    while i < |words|
      invariant 0 <= i <= |words|
      invariant solution.Keys == set w | w in words
      invariant forall w :: w in solution ==> solution[w] == Gathered(words, a, w, i)
    {
      solution := DecodeWord(solution, words[i], a, i, |words[0]|);
      i := i + 1;
    }
  }

  /** The `j` and `k` loops for word index `i`, whose word is `w`, over
      `rows` rows: every `(j, k)` whose variable is 1 is appended, in order,
      to the entry of `w`, and no other entry changes. */
  method DecodeWord(solution: Solution, w: string, a: Assignment, i: nat, rows: nat) returns (out: Solution)
    requires w in solution
    ensures out.Keys == solution.Keys
    ensures out[w] == solution[w] + WordHits(a, i, rows)
    ensures forall v :: v in out && v != w ==> out[v] == solution[v]
  {
    out := solution;
    var j := 0;
    while j < rows
      invariant 0 <= j <= rows
      invariant out.Keys == solution.Keys
      invariant out[w] == solution[w] + WordHits(a, i, j)
      invariant forall v :: v in out && v != w ==> out[v] == solution[v]
    {
      ghost var before := out[w];
      out := DecodeCell(out, w, a, i, j);
      HitsStep(solution[w], before, out[w], a, i, j);
      j := j + 1;
    }
  }

  /** One pass of the `j` loop extends the entry by row `j`'s hits. */
  lemma HitsStep(base: seq<Placement>, before: seq<Placement>, after: seq<Placement>, a: Assignment, i: nat, j: nat)
    requires before == base + WordHits(a, i, j)
    requires after == before + CellHits(a, i, j, Span)
    ensures after == base + WordHits(a, i, j + 1)
  {
  }

  /** The `k` loop for word index `i` (whose word is `w`) and row `j`. */
  method DecodeCell(solution: Solution, w: string, a: Assignment, i: nat, j: nat) returns (out: Solution)
    requires w in solution
    ensures out.Keys == solution.Keys
    ensures out[w] == solution[w] + CellHits(a, i, j, Span)
    ensures forall v :: v in out && v != w ==> out[v] == solution[v]
  {
    out := solution;
    var k := 0;
    while k < Span
      invariant 0 <= k <= Span
      invariant out.Keys == solution.Keys
      invariant out[w] == solution[w] + CellHits(a, i, j, k)
      invariant forall v :: v in out && v != w ==> out[v] == solution[v]
    {
      if a(Key(i, j, k)) == 1 {
        out := out[w := out[w] + [(j, k)]];
      }
      k := k + 1;
    }
  }

  // ---------------------------------------------------------------------
  // What the decoded lists look like
  // ---------------------------------------------------------------------

  /** `e` comes strictly before `f` in `(row, start)` order. */
  predicate Before(e: Placement, f: Placement)
  {
    e.0 < f.0 || (e.0 == f.0 && e.1 < f.1)
  }

  /** Strictly ascending, hence no repeats. */
  predicate Ascending(s: seq<Placement>)
  {
    forall p, q :: 0 <= p < q < |s| ==> Before(s[p], s[q])
  }

  /** The hits in one cell are exactly its switched-on start columns below
      `k`, ascending. */
  lemma {:induction false} CellHitsMembers(a: Assignment, i: nat, j: nat, k: nat)
    ensures forall e :: e in CellHits(a, i, j, k) <==> e.0 == j && e.1 < k && a(Key(i, j, e.1)) == 1
    ensures Ascending(CellHits(a, i, j, k))
  {
    if k > 0 {
      CellHitsMembers(a, i, j, k - 1);
    }
  }

  /** Under a 0/1 assignment, the number of hits is the sum of the cell's
      variables below `k`. */
  lemma {:induction false} CellHitsCount(a: Assignment, i: nat, j: nat, k: nat)
    requires k <= Span
    requires BinaryOn(a, Cell(i, j))
    ensures |CellHits(a, i, j, k)| == Sum(a, Cell(i, j)[..k])
  {
    if k > 0 {
      CellHitsCount(a, i, j, k - 1);
      var cell := Cell(i, j);
      assert cell[..k][..k - 1] == cell[..k - 1];
      assert cell[k - 1] in cell;
    }
  }

  /** Word `i`'s hits are exactly its switched-on keys below row `m`,
      ascending. */
  lemma {:induction false} WordHitsMembers(a: Assignment, i: nat, m: nat)
    ensures forall e :: e in WordHits(a, i, m) <==> e.0 < m && e.1 < Span && a(Key(i, e.0, e.1)) == 1
    ensures Ascending(WordHits(a, i, m))
  {
    if m > 0 {
      WordHitsMembers(a, i, m - 1);
      CellHitsMembers(a, i, m - 1, Span);
      var s: seq<Placement>, t: seq<Placement> := WordHits(a, i, m - 1), CellHits(a, i, m - 1, Span);
      forall p, q | 0 <= p < q < |s + t|
        ensures Before((s + t)[p], (s + t)[q])
      {
        if q < |s| {
          assert (s + t)[p] == s[p] && (s + t)[q] == s[q];
        } else if p >= |s| {
          assert (s + t)[p] == t[p - |s|] && (s + t)[q] == t[q - |s|];
        } else {
          assert (s + t)[p] == s[p] && s[p] in s;
          assert (s + t)[q] == t[q - |s|] && t[q - |s|] in t;
        }
      }
    }
  }

  /** A cell with exactly one 0/1 variable switched on yields one pair. */
  lemma CellHitsSingle(a: Assignment, i: nat, j: nat)
    requires BinaryOn(a, Cell(i, j)) && Sum(a, Cell(i, j)) == 1
    ensures |CellHits(a, i, j, Span)| == 1
    ensures CellHits(a, i, j, Span)[0].0 == j && CellHits(a, i, j, Span)[0].1 < Span
    ensures a(Key(i, j, CellHits(a, i, j, Span)[0].1)) == 1
  {
    CellHitsCount(a, i, j, Span);
    assert Cell(i, j)[..Span] == Cell(i, j);
    CellHitsMembers(a, i, j, Span);
    var t := CellHits(a, i, j, Span);
    assert t[0] in t;
  }

  /** A cell whose 0/1 variables sum to 1 has exactly one of them switched on. */
  lemma CellOneStart(a: Assignment, i: nat, j: nat)
    requires BinaryOn(a, Cell(i, j)) && Sum(a, Cell(i, j)) == 1
    ensures exists k :: 0 <= k < Span && a(Key(i, j, k)) == 1 &&
                        forall k' :: 0 <= k' < Span && k' != k ==> a(Key(i, j, k')) != 1
  {
    CellHitsSingle(a, i, j);
    CellHitsMembers(a, i, j, Span);
    var hits := CellHits(a, i, j, Span);
    var e := hits[0];
    assert hits == [e];
    forall k' | 0 <= k' < Span && k' != e.1
      ensures a(Key(i, j, k')) != 1
    {
      assert (j, k') in hits ==> (j, k') == e;
    }
  }

  /** A 0/1 assignment of the declared keys is 0/1 on each cell. */
  lemma CellBinary(a: Assignment, n: nat, m: nat, i: nat, j: nat)
    requires i < n && j < m && BinaryOn(a, Locations(n, m))
    ensures BinaryOn(a, Cell(i, j))
  {
    LocationsMembers(n, m);
    CellMembers(i, j);
  }

  /** When every cell of word `i` has exactly one 0/1 variable switched on,
      its hits are one pair per row: the `j`-th is in row `j`, at a start
      column whose variable is 1. */
  lemma {:induction false} WordHitsPerRow(a: Assignment, i: nat, rows: nat, n: nat, m: nat)
    requires i < n && rows <= m
    requires OnePerCell(a, n, m) && BinaryOn(a, Locations(n, m))
    ensures |WordHits(a, i, rows)| == rows
    ensures forall j :: 0 <= j < rows ==>
      WordHits(a, i, rows)[j].0 == j && WordHits(a, i, rows)[j].1 < Span && a(Key(i, j, WordHits(a, i, rows)[j].1)) == 1
  {
    if rows > 0 {
      WordHitsPerRow(a, i, rows - 1, n, m);
      CellBinary(a, n, m, i, rows - 1);
      CellHitsSingle(a, i, rows - 1);
    }
  }

  /** When every word index contributes `m` pairs, the entry for `w` holds
      `m` pairs per occurrence of `w` among the first `n` words. */
  lemma {:induction false} GatheredLength(words: seq<string>, a: Assignment, w: string, n: nat)
    requires n <= |words|
    requires forall i :: 0 <= i < |words| ==> |WordHits(a, i, Width(words))| == Width(words)
    ensures |Gathered(words, a, w, n)| == Width(words) * multiset(words[..n])[w]
  {
    if n > 0 {
      var m, c := Width(words), multiset(words[..n - 1])[w];
      GatheredLength(words, a, w, n - 1);
      CountStep(words, w, n);
      if words[n - 1] == w {
        assert |WordHits(a, n - 1, m)| == m;
        assert |Gathered(words, a, w, n)| == m * c + m;
        MulAdd(m, c, 1);
      } else {
        assert |Gathered(words, a, w, n)| == m * c;
      }
    }
  }

  /** Extending a prefix by one word adds one to that word's multiplicity. */
  lemma CountStep(words: seq<string>, w: string, n: nat)
    requires 0 < n <= |words|
    ensures multiset(words[..n])[w] == multiset(words[..n - 1])[w] + if words[n - 1] == w then 1 else 0
  {
    assert words[..n] == words[..n - 1] + [words[n - 1]];
  }

  /** A word listed once gets exactly its own hits. */
  lemma {:induction false} GatheredSingle(words: seq<string>, a: Assignment, i: nat, n: nat)
    requires i < |words| && n <= |words|
    requires forall p :: 0 <= p < |words| && p != i ==> words[p] != words[i]
    ensures Gathered(words, a, words[i], n) == if i < n then WordHits(a, i, Width(words)) else []
  {
    if n > 0 {
      var w, hits := words[i], WordHits(a, i, Width(words));
      GatheredSingle(words, a, i, n - 1);
      if n - 1 == i {
        assert Gathered(words, a, w, n - 1) == [];
        assert Gathered(words, a, w, n) == [] + hits;
      } else {
        assert words[n - 1] != w;
        assert Gathered(words, a, w, n) == Gathered(words, a, w, n - 1);
      }
    }
  }
}
