/** The two matrix products: the dense triple sum that `multiply_slow` computes
    over the declared index ranges, and the sparse sum that `multiply_optimal`
    accumulates from the stored cells alone; and when they agree. */
module Product {
  import opened Keys
  import opened Store

  /** The summand a(x) * b(x.1, j) contributed by cell x of a to column j. */
  function Term(a: Cells, b: Cells, x: Pos, j: int): int {
    At(a, x) * At(b, (x.1, j))
  }

  /** Σ_{0 <= k < n} a(i,k) * b(k,j), accumulated in the order of the innermost loop.
      A product with an empty operand sums to 0. */
  function Dot(a: Cells, b: Cells, i: int, j: int, n: int): (r: int)
    ensures a == map[] || b == map[] ==> r == 0
    decreases n
  {
    if n <= 0 then 0 else Dot(a, b, i, j, n - 1) + Term(a, b, (i, n - 1), j)
  }

  /** The positions `range(rows) × range(cols)`. */
  function Grid(rows: int, cols: int): set<Pos> {
    set i, j | 0 <= i < rows && 0 <= j < cols :: (i, j)
  }

  /** All cells stored in `d` lie inside the declared `rows × cols`. */
  ghost predicate InBounds(d: Cells, rows: int, cols: int) {
    forall p :: p in d ==> 0 <= p.0 < rows && 0 <= p.1 < cols
  }

  /** The dense product restricted to the positions in `g`, zero sums dropped. */
  function DenseOn(a: Cells, b: Cells, n: int, g: set<Pos>): (c: Cells)
    ensures NoZeros(c)
    ensures forall p :: p in g ==> At(c, p) == Dot(a, b, p.0, p.1, n)
    ensures forall p :: p !in g ==> p !in c
  {
    map p | p in g && Dot(a, b, p.0, p.1, n) != 0 :: Dot(a, b, p.0, p.1, n)
  }

  lemma DenseOnInsert(a: Cells, b: Cells, n: int, g: set<Pos>, p: Pos)
    ensures DenseOn(a, b, n, g + {p}) == Put(DenseOn(a, b, n, g), p, Dot(a, b, p.0, p.1, n))
  {
    SameValues(DenseOn(a, b, n, g + {p}), Put(DenseOn(a, b, n, g), p, Dot(a, b, p.0, p.1, n)));
  }

  /** The `rows × cols` result of the triple loop with inner length `n`. */
  function DenseProduct(a: Cells, b: Cells, rows: int, n: int, cols: int): (c: Cells)
    ensures NoZeros(c)
    ensures InBounds(c, rows, cols)
    ensures forall i, j :: 0 <= i < rows && 0 <= j < cols ==> At(c, (i, j)) == Dot(a, b, i, j, n)
  {
    var c := DenseOn(a, b, n, Grid(rows, cols));
    assert forall i, j :: 0 <= i < rows && 0 <= j < cols ==> (i, j) in Grid(rows, cols);
    c
  }

  /** The cells x among `q` that meet a stored b(x.1, p.1) on the way to position p. */
  ghost function Meet(q: set<Pos>, b: Cells, p: Pos): set<Pos> {
    set x | x in q && x.0 == p.0 && (x.1, p.1) in b
  }

  /** Σ_{x in xs} a(x) * b(x.1, j), in no particular order. */
  ghost function SumOver(a: Cells, b: Cells, j: int, xs: set<Pos>): int
    decreases xs
  {
    if xs == {} then 0
    else
      var x :| x in xs;
      Term(a, b, x, j) + SumOver(a, b, j, xs - {x})
  }

  /** A sum over a finite set may take out any of its elements first. */
  lemma {:induction false} SumOverRemove(a: Cells, b: Cells, j: int, xs: set<Pos>, x: Pos)
    requires x in xs
    ensures SumOver(a, b, j, xs) == Term(a, b, x, j) + SumOver(a, b, j, xs - {x})
    decreases xs
  {
    var c :| c in xs && SumOver(a, b, j, xs) == Term(a, b, c, j) + SumOver(a, b, j, xs - {c});
    if c != x {
      SumOverRemove(a, b, j, xs - {c}, x);
      SumOverRemove(a, b, j, xs - {x}, c);
      assert xs - {c} - {x} == xs - {x} - {c};
    }
  }

  lemma SumOverAdd(a: Cells, b: Cells, j: int, xs: set<Pos>, x: Pos)
    requires x !in xs
    ensures SumOver(a, b, j, xs + {x}) == SumOver(a, b, j, xs) + Term(a, b, x, j)
  {
    SumOverRemove(a, b, j, xs + {x}, x);
    assert xs + {x} - {x} == xs;
  }

  /** Dropping summands that are zero leaves the sum unchanged. */
  lemma {:induction false} SumOverZeros(a: Cells, b: Cells, j: int, s: set<Pos>, t: set<Pos>)
    requires t <= s
    requires forall x :: x in s && x !in t ==> Term(a, b, x, j) == 0
    ensures SumOver(a, b, j, s) == SumOver(a, b, j, t)
    decreases s
  {
    if s != t {
      var x :| x in s && x !in t;
      SumOverRemove(a, b, j, s, x);
      SumOverZeros(a, b, j, s - {x}, t);
    }
  }

  /** The cells (i, 0), ..., (i, n - 1) of row i that the innermost loop visits. */
  function RowSpan(i: int, n: int): (r: set<Pos>)
    ensures forall x :: x in r <==> x.0 == i && 0 <= x.1 < n
    decreases n
  {
    if n <= 0 then {} else RowSpan(i, n - 1) + {(i, n - 1)}
  }

  /** The loop-accumulated dot product is the set sum over row i's cells `range(n)`. */
  lemma {:induction false} DotIsSum(a: Cells, b: Cells, i: int, j: int, n: int)
    ensures Dot(a, b, i, j, n) == SumOver(a, b, j, RowSpan(i, n))
    decreases n
  {
    if n > 0 {
      DotIsSum(a, b, i, j, n - 1);
      SumOverAdd(a, b, j, RowSpan(i, n - 1), (i, n - 1));
    }
  }

  /** The positions (i, j) reached from the cells `q` of a through some stored b(k, j). */
  ghost function Reach(q: set<Pos>, b: Cells): set<Pos> {
    set x, y | x in q && y in b.Keys && x.1 == y.0 :: (x.0, y.1)
  }

  /** `temp_result` once the cells `q` of a have been processed: a running sum for every
      position some product has touched, zero sums included. */
  ghost function Accumulated(a: Cells, b: Cells, q: set<Pos>): (t: map<Pos, int>)
    ensures forall p :: p in t <==> Meet(q, b, p) != {}
    ensures forall p :: p in t ==> t[p] == SumOver(a, b, p.1, Meet(q, b, p))
  {
    forall p | Meet(q, b, p) != {}
      ensures p in Reach(q, b)
    {
      var x :| x in Meet(q, b, p);
      var y := (x.1, p.1);
      assert x in q && y in b.Keys && x.1 == y.0;
      assert p == (x.0, y.1);
    }
    forall p | p in Reach(q, b)
      ensures Meet(q, b, p) != {}
    {
      var x, y :| x in q && y in b.Keys && x.1 == y.0 && p == (x.0, y.1);
      assert x in Meet(q, b, p);
    }
    map p | p in Reach(q, b) :: SumOver(a, b, p.1, Meet(q, b, p))
  }

  /** The entries of `temp` with a non-zero sum: the commit loop's result. */
  function NonZeroOn(t: map<Pos, int>, s: set<Pos>): (c: Cells)
    ensures NoZeros(c)
    ensures forall p :: p in c <==> p in s && p in t && t[p] != 0
    ensures forall p :: p in c ==> c[p] == t[p]
  {
    map p | p in s && p in t && t[p] != 0 :: t[p]
  }

  lemma NonZeroOnInsert(t: map<Pos, int>, s: set<Pos>, p: Pos)
    requires p in t && p !in s
    ensures NonZeroOn(t, s + {p}) == Put(NonZeroOn(t, s), p, t[p])
  {
    SameValues(NonZeroOn(t, s + {p}), Put(NonZeroOn(t, s), p, t[p]));
  }

  /** The result `multiply_optimal` computes from the stored cells alone. */
  ghost function SparseProduct(a: Cells, b: Cells): (c: Cells)
    ensures NoZeros(c)
    ensures forall p :: At(c, p) == SumOver(a, b, p.1, Meet(a.Keys, b, p))
  {
    var t := Accumulated(a, b, a.Keys);
    NonZeroOn(t, t.Keys)
  }

  /** `temp` after the products of one cell x of a, with value v, have been added for
      the columns in `done` of row x.1 of b. */
  ghost predicate Scattered(t': map<Pos, int>, t: map<Pos, int>, b: Cells, x: Pos, v: int, done: set<int>) {
    && (forall p :: p in t' <==> p in t || (p.0 == x.0 && p.1 in done))
    && (forall p :: p in t' ==> t'[p] == At(t, p) + (if p.0 == x.0 && p.1 in done then v * At(b, (x.1, p.1)) else 0))
  }

  lemma ScatteredUnique(t1: map<Pos, int>, t2: map<Pos, int>, t: map<Pos, int>, b: Cells, x: Pos, v: int, done: set<int>)
    requires Scattered(t1, t, b, x, v, done) && Scattered(t2, t, b, x, v, done)
    ensures t1 == t2
  {
    assert t1.Keys == t2.Keys;
  }

  /** The columns j with b(k, j) stored. */
  ghost function RowCols(b: Cells, k: int): set<int> {
    set y | y in b.Keys && y.0 == k :: y.1
  }

  /** One more cell x of a adds x to the cells meeting each position of row x.0
      that row x.1 of b reaches. */
  lemma MeetInsert(q: set<Pos>, b: Cells, x: Pos, p: Pos)
    ensures Meet(q + {x}, b, p) == Meet(q, b, p) + (if p.0 == x.0 && p.1 in RowCols(b, x.1) then {x} else {})
  {
    if p.0 == x.0 && p.1 in RowCols(b, x.1) {
      var y :| y in b.Keys && y.0 == x.1 && y.1 == p.1;
      assert (x.1, p.1) == y;
      assert x in Meet(q + {x}, b, p);
    } else {
      assert x in Meet(q + {x}, b, p) ==> (x.1, p.1) in b && p.1 in RowCols(b, x.1);
    }
  }

  /** The running sum at one position p after one more cell x of a is processed. */
  lemma AccumulateAt(a: Cells, b: Cells, q: set<Pos>, x: Pos, p: Pos)
    requires x in a && x !in q
    ensures var t, t', hit := Accumulated(a, b, q), Accumulated(a, b, q + {x}), p.0 == x.0 && p.1 in RowCols(b, x.1);
      && (p in t' <==> p in t || hit)
      && (p in t' ==> t'[p] == At(t, p) + (if hit then a[x] * At(b, (x.1, p.1)) else 0))
  {
    var m, m' := Meet(q, b, p), Meet(q + {x}, b, p);
    MeetInsert(q, b, x, p);
    if p.0 == x.0 && p.1 in RowCols(b, x.1) {
      assert x !in m && m' == m + {x};
      assert x in m';
      SumOverAdd(a, b, p.1, m, x);
    } else {
      assert m' == m;
    }
  }

  /** Processing one more cell x of a scatters a[x] * b(x.1, j) over row x.0. */
  lemma AccumulateStep(a: Cells, b: Cells, q: set<Pos>, x: Pos)
    requires x in a && x !in q
    ensures Scattered(Accumulated(a, b, q + {x}), Accumulated(a, b, q), b, x, a[x], RowCols(b, x.1))
  {
    forall p {
      AccumulateAt(a, b, q, x, p);
    }
  }

  /** The central result: with every stored cell inside the declared bounds, the
      sparse product of `multiply_optimal` is the dense product of `multiply_slow`. */
  lemma OptimalMatchesSlow(a: Cells, b: Cells, rows: int, n: int, cols: int)
    requires InBounds(a, rows, n) && InBounds(b, n, cols)
    ensures SparseProduct(a, b) == DenseProduct(a, b, rows, n, cols)
  {
    var sparse, dense := SparseProduct(a, b), DenseProduct(a, b, rows, n, cols);
    forall p
      ensures At(sparse, p) == At(dense, p)
    {
      var m := Meet(a.Keys, b, p);
      if 0 <= p.0 < rows && 0 <= p.1 < cols {
        var span := RowSpan(p.0, n);
        assert At(dense, p) == Dot(a, b, p.0, p.1, n);
        DotIsSum(a, b, p.0, p.1, n);
        assert m <= span;
        forall x | x in span && x !in m
          ensures Term(a, b, x, p.1) == 0
        {
          assert x !in a || (x.1, p.1) !in b;
        }
        SumOverZeros(a, b, p.1, span, m);
      } else {
        assert At(dense, p) == 0;
        assert m == {};
      }
    }
    SameValues(sparse, dense);
  }

  /** The sparse product of the two out-of-bounds cells, position by position. */
  lemma OutOfBoundsSparseAt(p: Pos)
    ensures At(SparseProduct(map[(0, 1) := 5], map[(1, 0) := 2]), p) == if p == (0, 0) then 10 else 0
  {
    var a, b: Cells := map[(0, 1) := 5], map[(1, 0) := 2];
    var m := Meet(a.Keys, b, p);
    if p == (0, 0) {
      assert m == {(0, 1)};
      SumOverRemove(a, b, 0, m, (0, 1));
      assert m - {(0, 1)} == {};
    } else {
      assert m == {};
    }
  }

  /** The triple loop over a 1×1 result never reaches a cell at column 1 of a. */
  lemma OutOfBoundsDense()
    ensures DenseProduct(map[(0, 1) := 5], map[(1, 0) := 2], 1, 1, 1) == map[]
  {
    var dense := DenseProduct(map[(0, 1) := 5], map[(1, 0) := 2], 1, 1, 1);
    assert At(dense, (0, 0)) == 0;
    SameValues(dense, map[]);
  }

  /** The grouped product pairs that cell with the cell at row 1 of b regardless. */
  lemma OutOfBoundsSparse()
    ensures SparseProduct(map[(0, 1) := 5], map[(1, 0) := 2]) == map[(0, 0) := 10]
  {
    forall p {
      OutOfBoundsSparseAt(p);
    }
    SameValues(SparseProduct(map[(0, 1) := 5], map[(1, 0) := 2]), map[(0, 0) := 10]);
  }

  /** Without the bounds hypothesis the two products differ: a cell at column 1 of a
      1×1 matrix meets a cell at row 1 of another 1×1 matrix only in the sparse sum. */
  lemma OutOfBoundsCellsDisagree()
    ensures DenseProduct(map[(0, 1) := 5], map[(1, 0) := 2], 1, 1, 1)
         != SparseProduct(map[(0, 1) := 5], map[(1, 0) := 2])
  {
    OutOfBoundsDense();
    OutOfBoundsSparse();
    assert (0, 0) in map[(0, 0) := 10];
  }
}
