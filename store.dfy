/** The abstract contents of a sparse matrix: the cells it stores, with every
    absent cell reading as 0, and the element-wise sum and difference. */
module Store {
  import opened Keys

  /** The non-zero cells, keyed by position. */
  type Cells = map<Pos, int>

  /** Zero-elision: zero is represented by absence, never stored. */
  ghost predicate NoZeros(d: Cells) {
    forall p :: p in d ==> d[p] != 0
  }

  /** `self.data.get(key, 0)`: the dense value at a position. A non-zero reading is a
      stored cell. */
  function At(d: Cells, p: Pos): (v: int)
    ensures v != 0 ==> p in d && d[p] == v
  {
    if p in d then d[p] else 0
  }

  /** `set_element`: insert or overwrite a non-zero value, delete on zero. */
  function Put(d: Cells, p: Pos, v: int): (r: Cells)
    ensures At(r, p) == v
    ensures forall q :: q != p ==> At(r, q) == At(d, q)
    ensures v == 0 ==> p !in r && (p !in d ==> r == d)
    ensures r.Keys <= d.Keys + {p}
    ensures NoZeros(d) ==> NoZeros(r)
  {
    if v != 0 then d[p := v] else d - {p}
  }

  /** A zero-free cell map is determined by its dense values. */
  lemma SameValues(x: Cells, y: Cells)
    requires NoZeros(x) && NoZeros(y)
    requires forall p :: At(x, p) == At(y, p)
    ensures x == y
  {
    forall p | p in x
      ensures p in y && x[p] == y[p]
    {
      assert At(x, p) == At(y, p);
    }
    forall p | p in y
      ensures p in x
    {
      assert At(x, p) == At(y, p);
    }
    assert x.Keys == y.Keys;
  }

  /** A second `set_element` on the same position overrides the first. */
  lemma PutTwice(d: Cells, p: Pos, v: int, w: int)
    ensures Put(Put(d, p, v), p, w) == Put(d, p, w)
  {
    var lhs, rhs := Put(Put(d, p, v), p, w), Put(d, p, w);
    assert lhs.Keys == rhs.Keys;
    forall q | q in lhs
      ensures lhs[q] == rhs[q]
    {
      assert At(lhs, q) == At(rhs, q);
    }
  }

  /** The element-wise operations of `add` and `subtract`. */
  datatype Op = Plus | Minus

  function Apply(op: Op, x: int, y: int): int {
    match op
    case Plus => x + y
    case Minus => x - y
  }

  /** The result of combining `a` and `b` at the positions in `s`, zero results dropped. */
  function CombineOn(op: Op, a: Cells, b: Cells, s: set<Pos>): (c: Cells)
    ensures NoZeros(c)
    ensures forall p :: p in s ==> At(c, p) == Apply(op, At(a, p), At(b, p))
    ensures forall p :: p !in s ==> p !in c
  {
    map p | p in s && Apply(op, At(a, p), At(b, p)) != 0 :: Apply(op, At(a, p), At(b, p))
  }

  /** One more position handled is one more `set_element` on the partial result. */
  lemma CombineOnInsert(op: Op, a: Cells, b: Cells, s: set<Pos>, p: Pos)
    ensures CombineOn(op, a, b, s + {p}) == Put(CombineOn(op, a, b, s), p, Apply(op, At(a, p), At(b, p)))
  {
    var lhs := CombineOn(op, a, b, s + {p});
    var rhs := Put(CombineOn(op, a, b, s), p, Apply(op, At(a, p), At(b, p)));
    SameValues(lhs, rhs);
  }

  /** The full element-wise result: every position stored in either operand. */
  function Combine(op: Op, a: Cells, b: Cells): (c: Cells)
    ensures NoZeros(c)
    ensures forall p :: At(c, p) == Apply(op, At(a, p), At(b, p))
    ensures c.Keys <= a.Keys + b.Keys
  {
    CombineOn(op, a, b, a.Keys + b.Keys)
  }

  lemma AddCommutes(a: Cells, b: Cells)
    ensures Combine(Plus, a, b) == Combine(Plus, b, a)
  {
    SameValues(Combine(Plus, a, b), Combine(Plus, b, a));
  }

  /** Adding the all-zero matrix gives the operand back. */
  lemma AddZero(a: Cells)
    requires NoZeros(a)
    ensures Combine(Plus, a, map[]) == a
  {
    SameValues(Combine(Plus, a, map[]), a);
  }

  /** A matrix minus itself stores nothing. */
  lemma SubtractSelf(a: Cells)
    ensures Combine(Minus, a, a) == map[]
  {
    SameValues(Combine(Minus, a, a), map[]);
  }

  /** Subtracting, then adding back, restores a zero-free operand. */
  lemma SubtractThenAdd(a: Cells, b: Cells)
    requires NoZeros(a)
    ensures Combine(Plus, Combine(Minus, a, b), b) == a
  {
    SameValues(Combine(Plus, Combine(Minus, a, b), b), a);
  }
}
