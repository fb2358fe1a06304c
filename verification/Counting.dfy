/** Sizes of sets of pairs. */
module Counting {
  import opened Graph

  /** The pairs `(a, b)` with `a` in `s` and `b` in its row. */
  ghost function Rel<T>(s: set<T>, row: map<T, set<T>>): set<(T, T)> {
    set a, b | a in s && a in row && b in row[a] :: (a, b)
  }

  ghost function Swap<T>(p: set<(T, T)>): set<(T, T)> {
    set x | x in p :: (x.1, x.0)
  }

  ghost function Square<T>(s: set<T>): set<(T, T)> {
    set a, b | a in s && b in s :: (a, b)
  }

  ghost function Diagonal<T>(s: set<T>): set<(T, T)> {
    set a | a in s :: (a, a)
  }

  ghost function OffDiagonal<T>(s: set<T>): set<(T, T)> {
    set a, b | a in s && b in s && a != b :: (a, b)
  }

  ghost predicate Injective<A(!new), B>(s: set<A>, f: A -> B) {
    forall x, y | x in s && y in s && f(x) == f(y) :: x == y
  }

  ghost function Image<A, B>(s: set<A>, f: A -> B): set<B> {
    set x | x in s :: f(x)
  }

  /** An injective image has as many elements. */
  lemma {:induction false} ImageSize<A(!new), B>(s: set<A>, f: A -> B)
    requires Injective(s, f)
    ensures |Image(s, f)| == |s|
    decreases |s|
  {
    if s == {} {
      assert Image(s, f) == {};
    } else {
      var a :| a in s;
      var rest := s - {a};
      ImageSize(rest, f);
      assert Image(s, f) == Image(rest, f) + {f(a)};
    }
  }

  lemma SwapSize<T(!new)>(p: set<(T, T)>)
    ensures |Swap(p)| == |p|
  {
    var f := (x: (T, T)) => (x.1, x.0);
    ImageSize(p, f);
    assert Swap(p) == Image(p, f);
  }

  lemma DiagonalSize<T(!new)>(s: set<T>)
    ensures |Diagonal(s)| == |s|
  {
    var f := (a: T) => (a, a);
    ImageSize(s, f);
    assert Diagonal(s) == Image(s, f);
  }

  /** One more row adds its size. */
  lemma RowSize<T(!new)>(s: set<T>, row: map<T, set<T>>, a: T)
    requires a !in s && a in row
    ensures |Rel(s + {a}, row)| == |Rel(s, row)| + |row[a]|
  {
    var f := (b: T) => (a, b);
    var mine := Image(row[a], f);
    ImageSize(row[a], f);
    assert Rel(s + {a}, row) == Rel(s, row) + mine;
    assert Rel(s, row) !! mine;
  }

  lemma {:induction false} ConstantRows<T(!new)>(s: set<T>, row: map<T, set<T>>, t: set<T>)
    requires forall a | a in s :: a in row && row[a] == t
    ensures |Rel(s, row)| == |s| * |t|
    decreases |s|
  {
    if s == {} {
      assert Rel(s, row) == {};
    } else {
      var a :| a in s;
      ConstantRows(s - {a}, row, t);
      RowSize(s - {a}, row, a);
      assert s - {a} + {a} == s;
      assert |s| * |t| == (|s| - 1) * |t| + |t|;
    }
  }

  lemma SquareSize<T(!new)>(s: set<T>)
    ensures |Square(s)| == |s| * |s|
  {
    var row := map a | a in s :: s;
    ConstantRows(s, row, s);
    assert Square(s) == Rel(s, row);
  }

  lemma OffDiagonalSize<T(!new)>(s: set<T>)
    ensures |OffDiagonal(s)| == |s| * |s| - |s|
  {
    SquareSize(s);
    DiagonalSize(s);
    assert Square(s) == OffDiagonal(s) + Diagonal(s);
    assert OffDiagonal(s) !! Diagonal(s);
  }

  /** Inclusion and exclusion for a relation and its converse. */
  lemma BothWays<T(!new)>(p: set<(T, T)>, all: set<(T, T)>)
    requires p + Swap(p) <= all
    ensures 2 * |p| <= |all| + |p * Swap(p)|
  {
    SwapSize(p);
    SubsetAtMost(p + Swap(p), all);
    assert |p + Swap(p)| + |p * Swap(p)| == |p| + |Swap(p)|;
  }
}
