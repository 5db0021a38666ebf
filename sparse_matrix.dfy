/** The `SparseMatrix` class: declared dimensions and a dictionary of the non-zero
    cells, updated in place by `set_element` and filled by the reader and the
    arithmetic operations. The dictionary key `f"{row}.{column}"` is represented
    by the position itself; `Keys.KeyRoundTrip` and `Keys.KeyInjective` show that
    nothing is lost by doing so. */
module Sparse {
  import opened Wrappers
  import opened Strings
  import opened Keys
  import opened Store
  import opened Product
  import opened Codec

  /** The positions (i, j) with 0 <= i < rows and j in `range(cols)`: what the two
      outer loops of `multiply_slow` have visited after row i. */
  lemma GridStep(i: int, cols: int)
    requires i >= 0
    ensures Grid(i, cols) + RowSpan(i, cols) == Grid(i + 1, cols)
  {
    forall p | p in Grid(i + 1, cols)
      ensures p in Grid(i, cols) + RowSpan(i, cols)
    {
      if p.0 < i {
        assert p in Grid(i, cols);
      }
    }
  }

  /** The middle loop of `multiply_slow` run on `d` for the cells (i, 0) .. (i, j - 1)
      of row i: a `set_element` for every non-zero sum. */
  ghost function RowFilled(a: Cells, b: Cells, n: int, d: Cells, i: int, j: int): Cells
    decreases j
  {
    if j <= 0 then d
    else
      var prev := RowFilled(a, b, n, d, i, j - 1);
      var sum := Dot(a, b, i, j - 1, n);
      if sum != 0 then Put(prev, (i, j - 1), sum) else prev
  }

  /** Filling cells (i, 0) .. (i, j - 1) extends the sums at `done` by those cells. */
  lemma {:induction false} RowFilledDense(a: Cells, b: Cells, n: int, done: set<Pos>, i: int, j: int)
    ensures RowFilled(a, b, n, DenseOn(a, b, n, done), i, j) == DenseOn(a, b, n, done + RowSpan(i, j))
    decreases j
  {
    if j <= 0 {
      assert done + RowSpan(i, j) == done;
    } else {
      var g, p := done + RowSpan(i, j - 1), (i, j - 1);
      RowFilledDense(a, b, n, done, i, j - 1);
      DenseOnInsert(a, b, n, g, p);
      assert g + {p} == done + RowSpan(i, j);
      if Dot(a, b, i, j - 1, n) == 0 {
        assert p !in DenseOn(a, b, n, g);
      }
    }
  }

  /** After the outer loop of `multiply_slow` every row of `range(rows)` is done
      (none at all when rows <= 0). */
  lemma SlowLoopDone(a: Cells, b: Cells, rows: int, n: int, cols: int, i: int)
    requires 0 <= i && (i == rows || (rows < 0 && i == 0))
    ensures DenseOn(a, b, n, Grid(i, cols)) == DenseProduct(a, b, rows, n, cols)
  {
    if rows < 0 {
      assert forall p :: p !in Grid(rows, cols);
      assert forall p :: p !in Grid(0, cols);
      assert Grid(rows, cols) == Grid(0, cols);
    }
  }

  /** `other_grouped_by_row_index` after the cells `done` of b have been grouped: each
      bucket lists (column, value) pairs of stored cells of its row, every grouped cell
      appears in its bucket, and no column appears twice in one bucket. */
  ghost predicate GroupedBy(g: map<int, seq<(int, int)>>, b: Cells, done: set<Pos>) {
    && done <= b.Keys
    && (forall k, t {:trigger g[k][t]} :: k in g && 0 <= t < |g[k]| ==> (k, g[k][t].0) in done && g[k][t].1 == b[(k, g[k][t].0)])
    && (forall y :: y in done ==> y.0 in g && (y.1, b[y]) in g[y.0])
    && (forall k, s, t :: k in g && 0 <= s < t < |g[k]| ==> g[k][s].0 != g[k][t].0)
  }

  lemma GroupedEntry(g: map<int, seq<(int, int)>>, b: Cells, done: set<Pos>, k: int, t: int)
    requires GroupedBy(g, b, done) && k in g && 0 <= t < |g[k]|
    ensures (k, g[k][t].0) in done && g[k][t].1 == b[(k, g[k][t].0)]
  {
  }

  /** Appending one more cell y of b to the bucket of its row keeps the grouping exact. */
  lemma GroupInsert(g: map<int, seq<(int, int)>>, b: Cells, done: set<Pos>, y: Pos)
    requires GroupedBy(g, b, done) && y in b.Keys && y !in done
    ensures var bucket := if y.0 in g then g[y.0] else [];
      GroupedBy(g[y.0 := bucket + [(y.1, b[y])]], b, done + {y})
  {
    var bucket := if y.0 in g then g[y.0] else [];
    var g': map<int, seq<(int, int)>> := g[y.0 := bucket + [(y.1, b[y])]];
    var done' := done + {y};
    forall t | 0 <= t < |bucket|
      ensures (y.0, bucket[t].0) in done && bucket[t].1 == b[(y.0, bucket[t].0)]
    {
      assert y.0 in g && bucket[t] == g[y.0][t];
      GroupedEntry(g, b, done, y.0, t);
    }
    forall k: int, t: int | k in g' && 0 <= t < |g'[k]|
      ensures (k, g'[k][t].0) in done' && g'[k][t].1 == b[(k, g'[k][t].0)]
    {
      if k == y.0 && t < |bucket| {
        assert g'[k][t] == bucket[t];
      }
    }
    forall z | z in done'
      ensures z.0 in g' && (z.1, b[z]) in g'[z.0]
    {
      if z == y {
        assert g'[y.0][|bucket|] == (y.1, b[y]);
      } else if z.0 == y.0 {
        assert (z.1, b[z]) in g[y.0];
        assert g'[y.0][..|bucket|] == bucket;
      }
    }
    forall k: int, s: int, t: int | k in g' && 0 <= s < t < |g'[k]|
      ensures g'[k][s].0 != g'[k][t].0
    {
      if k == y.0 && t == |bucket| {
        assert (y.0, g'[k][s].0) in done;
      } else if k == y.0 {
        assert g'[k][s] == g[k][s] && g'[k][t] == g[k][t];
      }
    }
  }

  /** A bucket of the grouping: the (column, value) pairs of exactly the stored cells
      of row k of b, each column once. */
  ghost predicate Bucket(bucket: seq<(int, int)>, b: Cells, k: int) {
    && RowPairs(bucket, b, k)
    && (forall y :: y in b && y.0 == k ==> (y.1, b[y]) in bucket)
  }

  /** Each pair of the bucket is a stored cell (column, value) of row k of b, each column once. */
  ghost predicate RowPairs(bucket: seq<(int, int)>, b: Cells, k: int) {
    && (forall t :: 0 <= t < |bucket| ==> (k, bucket[t].0) in b && bucket[t].1 == b[(k, bucket[t].0)])
    && (forall s, t :: 0 <= s < t < |bucket| ==> bucket[s].0 != bucket[t].0)
  }

  /** The columns listed in a bucket. */
  ghost function Columns(bucket: seq<(int, int)>): set<int> {
    set e | e in bucket :: e.0
  }

  lemma GroupedBucket(g: map<int, seq<(int, int)>>, b: Cells, k: int)
    requires GroupedBy(g, b, b.Keys) && k in g
    ensures Bucket(g[k], b, k)
  {
    forall t | 0 <= t < |g[k]|
      ensures (k, g[k][t].0) in b && g[k][t].1 == b[(k, g[k][t].0)]
    {
    }
  }

  /** A row of b with no bucket stores nothing: scattering it changes nothing. */
  lemma NoBucketNoColumns(g: map<int, seq<(int, int)>>, b: Cells, k: int)
    requires GroupedBy(g, b, b.Keys) && k !in g
    ensures forall t: map<Pos, int>, x: Pos, v: int :: x.1 == k ==> Scattered(t, t, b, x, v, RowCols(b, k))
  {
    forall y | y in b.Keys
      ensures y.0 != k
    {
      assert y.0 in g;
    }
  }

  /** Nothing processed, nothing accumulated. */
  lemma AccumulatedNone(a: Cells, b: Cells)
    ensures Accumulated(a, b, {}) == map[]
  {
    forall p
      ensures Meet({}, b, p) == {}
    {
    }
  }

  /** A map scattered from `Accumulated(a, b, q)` by one more cell x is `Accumulated(a, b, q + {x})`. */
  lemma AccumulateNext(a: Cells, b: Cells, q: set<Pos>, x: Pos, before: map<Pos, int>, after: map<Pos, int>)
    requires x in a && x !in q && before == Accumulated(a, b, q)
    requires Scattered(after, before, b, x, a[x], RowCols(b, x.1))
    ensures after == Accumulated(a, b, q + {x})
  {
    AccumulateStep(a, b, q, x);
    ScatteredUnique(after, Accumulated(a, b, q + {x}), before, b, x, a[x], RowCols(b, x.1));
  }

  /** The bucket lists exactly the columns stored in its row. */
  lemma BucketColumns(bucket: seq<(int, int)>, b: Cells, k: int)
    requires Bucket(bucket, b, k)
    ensures Columns(bucket) == RowCols(b, k)
  {
    forall c | c in RowCols(b, k)
      ensures c in Columns(bucket)
    {
      var y :| y in b.Keys && y.0 == k && y.1 == c;
      assert (y.1, b[y]) in bucket;
    }
    forall c | c in Columns(bucket)
      ensures c in RowCols(b, k)
    {
      var e :| e in bucket && e.0 == c;
      var t :| 0 <= t < |bucket| && bucket[t] == e;
      assert (k, c) in b.Keys;
    }
  }

  /** The columns of the first t + 1 pairs: one more column, not seen before. */
  lemma ColumnsStep(bucket: seq<(int, int)>, b: Cells, k: int, t: nat)
    requires RowPairs(bucket, b, k) && t < |bucket|
    ensures bucket[t].0 !in Columns(bucket[..t])
    ensures Columns(bucket[..t + 1]) == Columns(bucket[..t]) + {bucket[t].0}
  {
    assert bucket[..t + 1] == bucket[..t] + [bucket[t]];
    forall e | e in bucket[..t]
      ensures e.0 != bucket[t].0
    {
      var s :| 0 <= s < t && bucket[s] == e;
    }
  }

  /** Adding v * b(x.1, j) at (x.0, j) for a column j not yet scattered. */
  lemma ScatterStep(temp: map<Pos, int>, temp': map<Pos, int>, temp0: map<Pos, int>, b: Cells, x: Pos, v: int,
                    done: set<int>, done': set<int>, column: int, value: int)
    requires Scattered(temp, temp0, b, x, v, done)
    requires column !in done && (x.1, column) in b && value == b[(x.1, column)]
    requires var p := (x.0, column);
      temp' == if p in temp then temp[p := temp[p] + v * value] else temp[p := v * value]
    requires done' == done + {column}
    ensures Scattered(temp', temp0, b, x, v, done')
  {
  }

  /** The cells after the reader's loop has passed over lines 2 to i - 1. */
  ghost function Loaded(lines: seq<string>, i: int): Cells
    requires i <= |lines|
    decreases i
  {
    if i <= 2 then map[] else ApplyLine(Loaded(lines, i - 1), lines[i - 1])
  }

  /** The loop's cells are the lines after the headers applied in file order. */
  lemma {:induction false} LoadedApplies(lines: seq<string>, i: int)
    requires 2 <= i <= |lines|
    ensures Loaded(lines, i) == ApplyLines(map[], lines[2..i])
    decreases i
  {
    if i == 2 {
      assert lines[2..i] == [];
    } else {
      LoadedApplies(lines, i - 1);
      ApplyLinesStep(lines, i - 1);
    }
  }

  /** The positions handled by the second loop of `add`: one more taken from `remaining`. */
  lemma HandledStep(own: set<Pos>, others: set<Pos>, remaining: set<Pos>, p: Pos)
    requires p in remaining && remaining <= others
    ensures own + (others - (remaining - {p})) == own + (others - remaining) + {p}
  {
  }

  /** The display line built from the two pieces of a stored key and its value; `None` where
      the unpacking would raise. */
  function KeyedLine(key: string, value: int): (line: Option<string>)
    ensures '.' !in key ==> line.None?
    ensures line.Some? ==> |line.value| >= 2 && line.value[0] == '(' && line.value[|line.value| - 1] == ')'
  {
    var parts := Split(key, '.');
    if |parts| != 2 then None
    else Some("(" + parts[0] + ", " + parts[1] + ", " + IntToString(value) + ")")
  }

  /** The line cut from a stored key is the rendered cell line. */
  lemma KeyedLineIsEntryLine(k: Pos, v: int)
    ensures KeyedLine(Key(k), v) == Some(EntryLine(k, v))
  {
  }

  /** One more rendered cell line after the headers. */
  lemma EntryLinesAppend(header: seq<string>, ks: seq<Pos>, k: Pos, d: Cells)
    requires forall q :: q in ks ==> q in d
    requires k in d
    ensures header + EntryLines(ks + [k], d) == header + EntryLines(ks, d) + [EntryLine(k, d[k])]
  {
    assert EntryLines(ks + [k], d) == EntryLines(ks, d) + [EntryLine(k, d[k])];
  }

  /** One pass of the `display` loop keeps its invariants. */
  lemma DisplayStep(header: seq<string>, lines: seq<string>, shown: seq<Pos>, remaining: set<Pos>,
                    k: Pos, d: Cells, line: string)
    requires remaining <= d.Keys
    requires SortedKeys(d.Keys) == shown + SortedKeys(remaining)
    requires forall q :: q in shown ==> q in d
    requires lines == header + EntryLines(shown, d)
    requires k in remaining && SortedKeys(remaining) == [k] + SortedKeys(remaining - {k})
    requires line == EntryLine(k, d[k])
    ensures remaining - {k} <= d.Keys
    ensures SortedKeys(d.Keys) == (shown + [k]) + SortedKeys(remaining - {k})
    ensures forall q :: q in shown + [k] ==> q in d
    ensures lines + [line] == header + EntryLines(shown + [k], d)
  {
    Shift(shown, k, SortedKeys(remaining - {k}));
    EntryLinesAppend(header, shown, k, d);
  }

  /** When no position remains, the `display` loop has produced the rendering. */
  lemma DisplayDone(m: MatrixValue, header: seq<string>, shown: seq<Pos>, remaining: set<Pos>, lines: seq<string>)
    requires remaining == {}
    requires header == [HeaderLine("rows", m.rows), HeaderLine("cols", m.columns)]
    requires SortedKeys(m.cells.Keys) == shown + SortedKeys(remaining)
    requires forall q :: q in shown ==> q in m.cells
    requires lines == header + EntryLines(shown, m.cells)
    ensures lines == Render(m)
  {
    assert shown == SortedKeys(m.cells.Keys);
  }

  /** Moving the head of the rest to the end of the prefix. */
  lemma Shift<T>(prefix: seq<T>, x: T, rest: seq<T>)
    ensures prefix + ([x] + rest) == (prefix + [x]) + rest
  {
  }

  class SparseMatrix {
    var rows: int
    var columns: int
    /** `self.data`: the value of every stored cell, keyed by its position. */
    var data: Cells

    /** Zero-elision: a stored value is never 0. */
    ghost predicate Valid()
      reads this
    {
      NoZeros(data)
    }

    /** The matrix as the text form describes it. */
    function Value(): MatrixValue
      reads this
    {
      MatrixValue(rows, columns, data)
    }

    /** `SparseMatrix(row_count=..., column_count=...)`: an all-zero matrix. */
    constructor (rowCount: int, columnCount: int)
      ensures rows == rowCount && columns == columnCount && data == map[]
      ensures Valid()
    {
      rows := rowCount;
      columns := columnCount;
      data := map[];
    }

    /** `set_element`: store a non-zero value, delete the cell for a zero. */
    method SetElement(row: int, column: int, value: int)
      modifies this
      ensures data == Put(old(data), (row, column), value)
      ensures rows == old(rows) && columns == old(columns)
      ensures old(Valid()) ==> Valid()
    {
      if value != 0 {
        data := data[(row, column) := value];
      } else if (row, column) in data {
        data := data - {(row, column)};
      }
    }

    /** `get_element`: the stored value, 0 for an absent cell. */
    function GetElement(row: int, column: int): (v: int)
      reads this
      ensures (row, column) in data ==> v == data[(row, column)]
      ensures (row, column) !in data ==> v == 0
    {
      if (row, column) in data then data[(row, column)] else 0
    }

    /** `SparseMatrix(matrix_file_path)` and `read_from_file`: the two header lines give
        the dimensions; every later line that reads as `(row, col, value)` is one
        `set_element`, in file order, and every other line is skipped. */
    static method ReadFromFile(lines: seq<string>) returns (r: Result<SparseMatrix>)
      ensures r.Success? <==> Read(lines).Success?
      ensures r.Failure? ==> r.error == FormatError
      ensures r.Success? ==> fresh(r.value) && r.value.Value() == Read(lines).value && r.value.Valid()
    {
      var rowCount := HeaderValue(ReadLine(lines, 0));
      if rowCount.None? {
        return Failure(FormatError);
      }
      var columnCount := HeaderValue(ReadLine(lines, 1));
      if columnCount.None? {
        return Failure(FormatError);
      }
      var m := LoadEntries(lines, rowCount.value, columnCount.value);
      ReadBody(lines);
      return Success(m);
    }

    /** A new matrix of the declared dimensions, then the line loop of `read_from_file`:
        each line after the two headers is skipped or becomes a `set_element` call. */
    static method LoadEntries(lines: seq<string>, rowCount: int, columnCount: int) returns (m: SparseMatrix)
      requires |lines| >= 2
      ensures fresh(m)
      ensures m.rows == rowCount && m.columns == columnCount
      ensures m.data == ApplyLines(map[], lines[2..|lines|])
    {
      m := new SparseMatrix(rowCount, columnCount);
      var i := 2;
      while i < |lines|
        invariant 2 <= i <= |lines|
        invariant m.rows == rowCount && m.columns == columnCount
        invariant m.data == Loaded(lines, i)
      {
        LoadLine(m, lines, i);
        i := i + 1;
      }
      LoadedApplies(lines, i);
    }

    /** One pass of the line loop of `read_from_file`: strip the line, skip it unless it
        reads as `(row, col, value)`, otherwise one `set_element`. */
    static method LoadLine(m: SparseMatrix, lines: seq<string>, i: int)
      requires 2 <= i < |lines| && m.data == Loaded(lines, i)
      modifies m
      ensures m.rows == old(m.rows) && m.columns == old(m.columns)
      ensures m.data == Loaded(lines, i + 1)
    {
      var entry := ParseEntry(lines[i]);
      if entry.Some? {
        m.SetElement(entry.value.0, entry.value.1, entry.value.2);
      }
    }

    /** `display`: the header lines, then one `(row, column, value)` line per stored
        cell in ascending order of its key string, row and column cut from the key. */
    method Display() returns (lines: seq<string>)
      ensures lines == Render(Value())
      ensures Valid() ==> Read(lines) == Success(Value())
    {
      var header := [HeaderLine("rows", rows), HeaderLine("cols", columns)];
      lines := header;
      var remaining := data.Keys;
      ghost var shown: seq<Pos> := [];
      while remaining != {}
        invariant remaining <= data.Keys
        invariant SortedKeys(data.Keys) == shown + SortedKeys(remaining)
        invariant forall k :: k in shown ==> k in data
        invariant lines == header + EntryLines(shown, data)
        decreases remaining
      {
        var k := LeastKey(remaining);
        var line := KeyedLine(Key(k), data[k]);
        KeyedLineIsEntryLine(k, data[k]);
        DisplayStep(header, lines, shown, remaining, k, data, line.value);
        lines := lines + [line.value];
        shown := shown + [k];
        remaining := remaining - {k};
      }
      DisplayDone(Value(), header, shown, remaining, lines);
      if Valid() {
        ReadRender(Value());
      }
    }

    /** The next position `sorted` yields: the one with the least key string. */
    static method LeastKey(s: set<Pos>) returns (k: Pos)
      requires s != {}
      ensures k in s && SortedKeys(s) == [k] + SortedKeys(s - {k})
    {
      LeastExists(s);
      k :| k in s && IsLeast(k, s);
      SortedKeysUnfold(s, k);
    }

    /** `write_to_file`: the lines of `display`, each ended by a line break. */
    method WriteToFile() returns (text: string)
      ensures text == RenderText(Value())
      ensures Valid() ==> ReadText(text) == Success(Value())
    {
      var lines := Display();
      text := Join(lines);
      if Valid() {
        ReadTextRenderText(Value());
      }
    }

    /** The loops shared by `add` and `subtract`: the cells of self combined with the
        matching cell of other, then the cells only other stores. */
    method CombineWith(other: SparseMatrix, op: Op) returns (result: SparseMatrix)
      ensures fresh(result)
      ensures result.rows == rows && result.columns == columns
      ensures result.data == Combine(op, data, other.data)
    {
      result := new SparseMatrix(rows, columns);
      CombineOwn(other, op, result);
      CombineOthers(other, op, result);
    }

    /** The first loop: every cell of self, combined with other's value there. */
    method CombineOwn(other: SparseMatrix, op: Op, result: SparseMatrix)
      requires result != this && result != other && result.data == map[]
      modifies result
      ensures result.rows == old(result.rows) && result.columns == old(result.columns)
      ensures result.data == CombineOn(op, data, other.data, data.Keys)
    {
      var a, b := data, other.data;
      var remaining := a.Keys;
      while remaining != {}
        invariant remaining <= a.Keys
        invariant data == a && other.data == b
        invariant result.rows == old(result.rows) && result.columns == old(result.columns)
        invariant result.data == CombineOn(op, a, b, a.Keys - remaining)
        decreases remaining
      {
        var p :| p in remaining;
        CombineOnInsert(op, a, b, a.Keys - remaining, p);
        assert a.Keys - (remaining - {p}) == (a.Keys - remaining) + {p};
        result.SetElement(p.0, p.1, Apply(op, a[p], other.GetElement(p.0, p.1)));
        remaining := remaining - {p};
      }
      assert a.Keys - remaining == a.Keys;
    }

    /** The second loop: the cells only other stores, added (or subtracted) from 0. */
    method CombineOthers(other: SparseMatrix, op: Op, result: SparseMatrix)
      requires result != this && result != other
      requires result.data == CombineOn(op, data, other.data, data.Keys)
      modifies result
      ensures result.rows == old(result.rows) && result.columns == old(result.columns)
      ensures result.data == Combine(op, data, other.data)
    {
      var a, b := data, other.data;
      var remaining := b.Keys;
      while remaining != {}
        invariant remaining <= b.Keys
        invariant data == a && other.data == b
        invariant result.rows == old(result.rows) && result.columns == old(result.columns)
        invariant result.data == CombineOn(op, a, b, a.Keys + (b.Keys - remaining))
        decreases remaining
      {
        var p :| p in remaining;
        var handled := a.Keys + (b.Keys - remaining);
        HandledStep(a.Keys, b.Keys, remaining, p);
        if p !in a {
          CombineOnInsert(op, a, b, handled, p);
          var value := match op case Plus => b[p] case Minus => -b[p];
          result.SetElement(p.0, p.1, value);
        } else {
          assert handled + {p} == handled;
        }
        remaining := remaining - {p};
      }
      assert a.Keys + (b.Keys - remaining) == a.Keys + b.Keys;
    }

    /** `add`: the element-wise sum of two matrices of equal dimensions. */
    method Add(other: SparseMatrix) returns (r: Result<SparseMatrix>)
      ensures r.Success? <==> rows == other.rows && columns == other.columns
      ensures r.Failure? ==> r.error == DimensionMismatch
      ensures r.Success? ==> fresh(r.value) && r.value.rows == rows && r.value.columns == columns
      ensures r.Success? ==> r.value.data == Combine(Plus, data, other.data)
    {
      if rows != other.rows || columns != other.columns {
        return Failure(DimensionMismatch);
      }
      var result := CombineWith(other, Plus);
      return Success(result);
    }

    /** `subtract`: the element-wise difference self - other. */
    method Subtract(other: SparseMatrix) returns (r: Result<SparseMatrix>)
      ensures r.Success? <==> rows == other.rows && columns == other.columns
      ensures r.Failure? ==> r.error == DimensionMismatch
      ensures r.Success? ==> fresh(r.value) && r.value.rows == rows && r.value.columns == columns
      ensures r.Success? ==> r.value.data == Combine(Minus, data, other.data)
    {
      if rows != other.rows || columns != other.columns {
        return Failure(DimensionMismatch);
      }
      var result := CombineWith(other, Minus);
      return Success(result);
    }

    /** `multiply_slow`: the triple loop over `range(rows) × range(other.columns)`
        and `range(columns)`, storing each non-zero sum. */
    method MultiplySlow(other: SparseMatrix) returns (r: Result<SparseMatrix>)
      ensures r.Success? <==> columns == other.rows
      ensures r.Failure? ==> r.error == DimensionMismatch
      ensures r.Success? ==> fresh(r.value) && r.value.rows == rows && r.value.columns == other.columns
      ensures r.Success? ==> r.value.data == DenseProduct(data, other.data, rows, columns, other.columns)
    {
      if columns != other.rows {
        return Failure(DimensionMismatch);
      }
      var result := new SparseMatrix(rows, other.columns);
      var a, b, n, cols := data, other.data, columns, other.columns;
      var i := 0;
      while i < rows
        invariant 0 <= i && (i <= rows || i == 0)
        invariant result.rows == rows && result.columns == cols
        invariant result.data == DenseOn(a, b, n, Grid(i, cols))
      {
        FillRow(other, result, i);
        RowFilledDense(a, b, n, Grid(i, cols), i, cols);
        GridStep(i, cols);
        i := i + 1;
      }
      SlowLoopDone(a, b, rows, n, cols, i);
      return Success(result);
    }

    /** The middle loop of `multiply_slow` for row i: every non-zero sum of row i
        stored into `result`. */
    method FillRow(other: SparseMatrix, result: SparseMatrix, i: int)
      requires result != this && result != other
      modifies result
      ensures result.rows == old(result.rows) && result.columns == old(result.columns)
      ensures result.data == RowFilled(data, other.data, columns, old(result.data), i, other.columns)
    {
      var j := 0;
      while j < other.columns
        invariant 0 <= j && (j <= other.columns || j == 0)
        invariant result.rows == old(result.rows) && result.columns == old(result.columns)
        invariant result.data == RowFilled(data, other.data, columns, old(result.data), i, j)
      {
        var sum := DotProduct(other, i, j);
        if sum != 0 {
          result.SetElement(i, j, sum);
        }
        j := j + 1;
      }
    }

    /** The innermost loop of `multiply_slow`: Σ_{k in range(columns)} self[i][k] * other[k][j]. */
    method DotProduct(other: SparseMatrix, i: int, j: int) returns (sum: int)
      ensures sum == Dot(data, other.data, i, j, columns)
    {
      sum := 0;
      var k := 0;
      while k < columns
        invariant 0 <= k && (k <= columns || k == 0)
        invariant sum == Dot(data, other.data, i, j, k)
      {
        sum := sum + GetElement(i, k) * other.GetElement(k, j);
        k := k + 1;
      }
    }

    /** `multiply_optimal`: group the cells of other by row, scatter each cell of self
        over the bucket of its column into `temp_result`, then store the non-zero sums.
        When every stored cell lies inside the declared dimensions, the result is
        exactly that of `multiply_slow`. */
    method MultiplyOptimal(other: SparseMatrix) returns (r: Result<SparseMatrix>)
      ensures r.Success? <==> columns == other.rows
      ensures r.Failure? ==> r.error == DimensionMismatch
      ensures r.Success? ==> fresh(r.value) && r.value.rows == rows && r.value.columns == other.columns
      ensures r.Success? ==> r.value.data == SparseProduct(data, other.data)
      ensures r.Success? && InBounds(data, rows, columns) && InBounds(other.data, other.rows, other.columns) ==>
        r.value.data == DenseProduct(data, other.data, rows, columns, other.columns)
    {
      if columns != other.rows {
        return Failure(DimensionMismatch);
      }
      var a, b := data, other.data;
      var grouped := Group(b);
      var temp := Scatter(a, b, grouped);
      var result := Commit(rows, other.columns, temp);
      if InBounds(a, rows, columns) && InBounds(b, other.rows, other.columns) {
        OptimalMatchesSlow(a, b, rows, columns, other.columns);
      }
      return Success(result);
    }

    /** The last loop of `multiply_optimal`: a new `rows × columns` matrix holding the
        non-zero running sums of `temp_result`. */
    static method Commit(rows: int, columns: int, temp: map<Pos, int>) returns (result: SparseMatrix)
      ensures fresh(result)
      ensures result.rows == rows && result.columns == columns
      ensures result.data == NonZeroOn(temp, temp.Keys)
    {
      result := new SparseMatrix(rows, columns);
      var remaining := temp.Keys;
      while remaining != {}
        invariant remaining <= temp.Keys
        invariant result.rows == rows && result.columns == columns
        invariant result.data == NonZeroOn(temp, temp.Keys - remaining)
        decreases remaining
      {
        var p :| p in remaining;
        NonZeroOnInsert(temp, temp.Keys - remaining, p);
        assert temp.Keys - (remaining - {p}) == (temp.Keys - remaining) + {p};
        if temp[p] != 0 {
          result.SetElement(p.0, p.1, temp[p]);
        }
        remaining := remaining - {p};
      }
      assert temp.Keys - remaining == temp.Keys;
    }

    /** The first loop of `multiply_optimal`: the stored cells of b, by row. */
    static method Group(b: Cells) returns (grouped: map<int, seq<(int, int)>>)
      ensures GroupedBy(grouped, b, b.Keys)
    {
      grouped := map[];
      var remaining := b.Keys;
      while remaining != {}
        invariant remaining <= b.Keys
        invariant GroupedBy(grouped, b, b.Keys - remaining)
        decreases remaining
      {
        var y :| y in remaining;
        var bucket := if y.0 in grouped then grouped[y.0] else [];
        GroupInsert(grouped, b, b.Keys - remaining, y);
        grouped := grouped[y.0 := bucket + [(y.1, b[y])]];
        assert b.Keys - (remaining - {y}) == (b.Keys - remaining) + {y};
        remaining := remaining - {y};
      }
    }

    /** The second loop of `multiply_optimal`: the running sums of `temp_result`. */
    static method Scatter(a: Cells, b: Cells, grouped: map<int, seq<(int, int)>>) returns (temp: map<Pos, int>)
      requires GroupedBy(grouped, b, b.Keys)
      ensures temp == Accumulated(a, b, a.Keys)
    {
      temp := map[];
      var remaining := a.Keys;
      AccumulatedNone(a, b);
      assert a.Keys - remaining == {};
      while remaining != {}
        invariant remaining <= a.Keys
        invariant temp == Accumulated(a, b, a.Keys - remaining)
        decreases remaining
      {
        var x :| x in remaining;
        var q := a.Keys - remaining;
        var before := temp;
        if x.1 in grouped {
          GroupedBucket(grouped, b, x.1);
          temp := ScatterRow(temp, b, x, a[x], grouped[x.1]);
          BucketColumns(grouped[x.1], b, x.1);
        } else {
          NoBucketNoColumns(grouped, b, x.1);
        }
        AccumulateNext(a, b, q, x, before, temp);
        assert a.Keys - (remaining - {x}) == q + {x};
        remaining := remaining - {x};
      }
      assert a.Keys - remaining == a.Keys;
    }

    /** The innermost loop of `multiply_optimal`: add v * b(x.1, j) into the running sum
        at (x.0, j) for every (j, b(x.1, j)) in the bucket of row x.1 of b. */
    static method ScatterRow(temp0: map<Pos, int>, b: Cells, x: Pos, v: int, bucket: seq<(int, int)>)
      returns (temp: map<Pos, int>)
      requires RowPairs(bucket, b, x.1)
      ensures Scattered(temp, temp0, b, x, v, Columns(bucket))
    {
      temp := temp0;
      var t := 0;
      while t < |bucket|
        invariant 0 <= t <= |bucket|
        invariant Scattered(temp, temp0, b, x, v, Columns(bucket[..t]))
      {
        var (column, value) := bucket[t];
        var p := (x.0, column);
        ghost var before := temp;
        if p in temp {
          temp := temp[p := temp[p] + v * value];
        } else {
          temp := temp[p := v * value];
        }
        ColumnsStep(bucket, b, x.1, t);
        ScatterStep(before, temp, temp0, b, x, v, Columns(bucket[..t]), Columns(bucket[..t + 1]), column, value);
        t := t + 1;
      }
      assert bucket[..t] == bucket;
    }
  }
}
