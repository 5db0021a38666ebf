/** Cell coordinates and their string form. The matrix stores each non-zero cell
    under the key `f"{row}.{column}"`; it decodes keys with `split(".")` and
    `int`, and renders cells in ascending order of that string. */
module Keys {
  import opened Wrappers
  import opened Strings

  /** A (row, column) position; Python ints, so possibly negative. */
  type Pos = (int, int)

  /** The dictionary key `f"{row}.{column}"`. Splitting it at "." gives back the two
      decimal strings it was built from. */
  function Key(p: Pos): (key: string)
    ensures Split(key, '.') == [IntToString(p.0), IntToString(p.1)]
  {
    IntToStringAvoids(p.0, '.');
    IntToStringAvoids(p.1, '.');
    SplitFirst(IntToString(p.0), '.', IntToString(p.1));
    SplitWithout(IntToString(p.1), '.');
    IntToString(p.0) + "." + IntToString(p.1)
  }

  /** A key split at "." into two integers; `None` where Python would raise, as it does
      for a key without ".". */
  function DecodeKey(key: string): (r: Option<Pos>)
    ensures r.Some? ==> '.' in key
  {
    var parts := Split(key, '.');
    if |parts| != 2 then None
    else match (ParseInt(parts[0]), ParseInt(parts[1]))
      case (Some(row), Some(column)) => Some((row, column))
      case _ => None
  }

  /** Decoding a key recovers its position, negative indices included. */
  lemma KeyRoundTrip(p: Pos)
    ensures DecodeKey(Key(p)) == Some(p)
  {
    IntRoundTrip(p.0);
    IntRoundTrip(p.1);
  }

  /** Distinct positions never share a dictionary key. */
  lemma KeyInjective(p: Pos, q: Pos)
    requires Key(p) == Key(q)
    ensures p == q
  {
    KeyRoundTrip(p);
    KeyRoundTrip(q);
  }

  /** The order `sorted(self.data.items())` puts positions in: by key string. */
  predicate KeyLess(p: Pos, q: Pos)
    ensures KeyLess(p, q) ==> p != q
  {
    StrLess(Key(p), Key(q))
  }

  lemma KeyLessTotal(p: Pos, q: Pos)
    requires p != q
    ensures KeyLess(p, q) || KeyLess(q, p)
  {
    if Key(p) == Key(q) {
      KeyInjective(p, q);
    }
    StrLessTotal(Key(p), Key(q));
  }

  /** Row 10 is rendered before row 2: the order is textual, not numeric. */
  lemma KeyOrderIsTextual()
    ensures KeyLess((10, 0), (2, 0)) && KeyLess((1, 10), (1, 2)) && KeyLess((1, 5), (10, 0))
  {
    Numerals();
    assert Key((10, 0)) == "10.0";
    assert Key((2, 0)) == "2.0";
    assert Key((1, 10)) == "1.10";
    assert Key((1, 2)) == "1.2";
    assert Key((1, 5)) == "1.5";
  }

  /** The decimal forms used in the ordering examples. */
  lemma Numerals()
    ensures IntToString(0) == "0" && IntToString(1) == "1" && IntToString(2) == "2"
    ensures IntToString(5) == "5" && IntToString(10) == "10"
  {
    assert NatToString(1) == "1";
    assert NatToString(0) == "0";
  }

  predicate IsLeast(k: Pos, s: set<Pos>) {
    k in s && forall q :: q in s && q != k ==> KeyLess(k, q)
  }

  lemma {:induction false} LeastExists(s: set<Pos>)
    requires s != {}
    ensures exists k :: IsLeast(k, s)
    decreases s
  {
    var x :| x in s;
    var rest := s - {x};
    if rest == {} {
      assert s == {x};
      assert IsLeast(x, s);
    } else {
      LeastExists(rest);
      var m :| IsLeast(m, rest);
      KeyLessTotal(x, m);
      if KeyLess(x, m) {
        forall q | q in s && q != x
          ensures KeyLess(x, q)
        {
          if q != m {
            assert q in rest;
            assert KeyLess(m, q);
            StrLessTransitive(Key(x), Key(m), Key(q));
          }
        }
        assert IsLeast(x, s);
      } else {
        assert IsLeast(m, s);
      }
    }
  }

  /** The positions of `s` in the order `sorted` yields their keys: the least first. */
  ghost function SortedKeys(s: set<Pos>): (ks: seq<Pos>)
    ensures |ks| == |s|
    ensures forall k :: k in ks <==> k in s
    decreases s
  {
    if s == {} then []
    else
      LeastExists(s);
      var k :| IsLeast(k, s);
      [k] + SortedKeys(s - {k})
  }

  /** Only one position of a set is least. */
  lemma LeastUnique(k: Pos, m: Pos, s: set<Pos>)
    requires IsLeast(k, s) && IsLeast(m, s)
    ensures k == m
  {
    if k != m {
      StrLessTransitive(Key(k), Key(m), Key(k));
    }
  }

  /** Sorting puts the least position first, then the rest in order. */
  lemma SortedKeysUnfold(s: set<Pos>, k: Pos)
    requires IsLeast(k, s)
    ensures SortedKeys(s) == [k] + SortedKeys(s - {k})
  {
    LeastExists(s);
    var ks := SortedKeys(s);
    assert IsLeast(ks[0], s);
    LeastUnique(ks[0], k, s);
  }

  /** The sorted positions are in strictly ascending key order. */
  lemma {:induction false} SortedKeysAscending(s: set<Pos>)
    ensures var ks := SortedKeys(s); forall i, j :: 0 <= i < j < |ks| ==> KeyLess(ks[i], ks[j])
    decreases s
  {
    if s != {} {
      LeastExists(s);
      var k :| IsLeast(k, s);
      SortedKeysUnfold(s, k);
      var rest := SortedKeys(s - {k});
      SortedKeysAscending(s - {k});
      var ks := SortedKeys(s);
      forall i, j | 0 <= i < j < |ks|
        ensures KeyLess(ks[i], ks[j])
      {
        assert ks[j] == rest[j - 1] && ks[j] in s - {k};
        if i > 0 {
          assert ks[i] == rest[i - 1];
        }
      }
    }
  }
}
