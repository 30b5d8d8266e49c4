/**
  `add_matrices`, `subtract_matrices` and `multiply_matrices`: each checks the shapes, then
  builds a new matrix through `SetElement`, leaving both operands as they were.
*/
module Arithmetic {
  import opened Wrappers
  import opened SparseMatrices

  /** Why an arithmetic operation refuses its operands (the source raises ValueError). */
  datatype ArithmeticError =
    | DimensionMismatch      // addition or subtraction of matrices of different shapes
    | DimensionDisagreement  // multiplication where the columns of the first are not the rows of the second

  /** The cell-wise sum of two matrices, stored sparsely. */
  function Sum(a: Elements, b: Elements): (r: Elements)
    ensures NonZero(r)
    ensures forall row, col :: At(r, row, col) == At(a, row, col) + At(b, row, col)
    ensures r.Keys <= a.Keys + b.Keys
  {
    map p | p in a.Keys + b.Keys && At(a, p.0, p.1) + At(b, p.0, p.1) != 0
      :: At(a, p.0, p.1) + At(b, p.0, p.1)
  }

  /** The cell-wise difference of two matrices, stored sparsely. */
  function Difference(a: Elements, b: Elements): (r: Elements)
    ensures NonZero(r)
    ensures forall row, col :: At(r, row, col) == At(a, row, col) - At(b, row, col)
    ensures r.Keys <= a.Keys + b.Keys
  {
    map p | p in a.Keys + b.Keys && At(a, p.0, p.1) - At(b, p.0, p.1) != 0
      :: At(a, p.0, p.1) - At(b, p.0, p.1)
  }

  /** Addition does not depend on the order of the operands. */
  lemma SumCommutes(a: Elements, b: Elements)
    ensures Sum(a, b) == Sum(b, a)
  {
    SameCells(Sum(a, b), Sum(b, a));
  }

  /** Adding back what was subtracted restores a matrix that keeps the storage invariant. */
  lemma SumOfDifference(a: Elements, b: Elements)
    requires NonZero(a)
    ensures Sum(Difference(a, b), b) == a
  {
    SameCells(Sum(Difference(a, b), b), a);
  }

  /** The empty matrix is neutral for addition. */
  lemma SumEmpty(a: Elements)
    requires NonZero(a)
    ensures Sum(a, map[]) == a
  {
    SameCells(Sum(a, map[]), a);
  }

  /** `add_matrices(a, b)`. */
  method AddMatrices(a: SparseMatrix, b: SparseMatrix) returns (r: Result<SparseMatrix, ArithmeticError>)
    ensures r.Err? <==> a.numRows != b.numRows || a.numCols != b.numCols
    ensures r.Err? ==> r.error == DimensionMismatch
    ensures r.Ok? ==> && fresh(r.value) && r.value.Valid()
                      && r.value.numRows == a.numRows && r.value.numCols == a.numCols
                      && r.value.elements == Sum(a.elements, b.elements)
  {
    if a.numRows != b.numRows || a.numCols != b.numCols {
      return Err(DimensionMismatch);
    }
    var result := new SparseMatrix(a.numRows, a.numCols);
    var todo := a.elements.Keys + b.elements.Keys;
    ghost var done: set<Coord> := {};
    while todo != {}
      invariant fresh(result) && result.numRows == a.numRows && result.numCols == a.numCols
      invariant todo !! done && todo + done == a.elements.Keys + b.elements.Keys
      invariant NonZero(result.elements)
      invariant forall row, col ::
                  At(result.elements, row, col)
                  == (if (row, col) in done then At(a.elements, row, col) + At(b.elements, row, col) else 0)
      decreases todo
    {
      var key :| key in todo;
      result.SetElement(key.0, key.1, a.GetElement(key.0, key.1) + b.GetElement(key.0, key.1));
      todo := todo - {key};
      done := done + {key};
    }
    SameCells(result.elements, Sum(a.elements, b.elements));
    return Ok(result);
  }

  /** `subtract_matrices(a, b)`. */
  method SubtractMatrices(a: SparseMatrix, b: SparseMatrix) returns (r: Result<SparseMatrix, ArithmeticError>)
    ensures r.Err? <==> a.numRows != b.numRows || a.numCols != b.numCols
    ensures r.Err? ==> r.error == DimensionMismatch
    ensures r.Ok? ==> && fresh(r.value) && r.value.Valid()
                      && r.value.numRows == a.numRows && r.value.numCols == a.numCols
                      && r.value.elements == Difference(a.elements, b.elements)
  {
    if a.numRows != b.numRows || a.numCols != b.numCols {
      return Err(DimensionMismatch);
    }
    var result := new SparseMatrix(a.numRows, a.numCols);
    var todo := a.elements.Keys + b.elements.Keys;
    ghost var done: set<Coord> := {};
    while todo != {}
      invariant fresh(result) && result.numRows == a.numRows && result.numCols == a.numCols
      invariant todo !! done && todo + done == a.elements.Keys + b.elements.Keys
      invariant NonZero(result.elements)
      invariant forall row, col ::
                  At(result.elements, row, col)
                  == (if (row, col) in done then At(a.elements, row, col) - At(b.elements, row, col) else 0)
      decreases todo
    {
      var key :| key in todo;
      result.SetElement(key.0, key.1, a.GetElement(key.0, key.1) - b.GetElement(key.0, key.1));
      todo := todo - {key};
      done := done + {key};
    }
    SameCells(result.elements, Difference(a.elements, b.elements));
    return Ok(result);
  }

  /** What the stored entry `p` of `a` adds to the cell `(i, j)` of the product `a * b`. */
  function Term(a: Elements, b: Elements, p: Coord, i: int, j: int): int
    requires p in a
  {
    if p.0 == i then a[p] * At(b, p.1, j) else 0
  }

  /**
    The cell `(i, j)` of the product, summed over the stored entries `keys` of `a`: the
    sum of `a[(i, k)] * b.get(k, j)` over the keys `(i, k)` among them. The order in which
    the keys are taken does not matter (see `RowProductRemove`).
  */
  ghost function RowProduct(a: Elements, b: Elements, keys: set<Coord>, i: int, j: int): (r: int)
    requires keys <= a.Keys
    ensures b == map[] ==> r == 0
    decreases keys
  {
    if keys == {} then 0
    else var p :| p in keys; Term(a, b, p, i, j) + RowProduct(a, b, keys - {p}, i, j)
  }

  /** Any stored entry can be taken out of the sum first. */
  lemma {:induction false} RowProductRemove(a: Elements, b: Elements, keys: set<Coord>, p: Coord, i: int, j: int)
    requires keys <= a.Keys && p in keys
    ensures RowProduct(a, b, keys, i, j) == Term(a, b, p, i, j) + RowProduct(a, b, keys - {p}, i, j)
    decreases keys
  {
    var q :| q in keys && RowProduct(a, b, keys, i, j) == Term(a, b, q, i, j) + RowProduct(a, b, keys - {q}, i, j);
    if q != p {
      RowProductRemove(a, b, keys - {q}, p, i, j);
      RowProductRemove(a, b, keys - {p}, q, i, j);
      assert keys - {q} - {p} == keys - {p} - {q};
    }
  }

  /** Entries of other rows add nothing to row `i`. */
  lemma {:induction false} RowProductOtherRows(a: Elements, b: Elements, keys: set<Coord>, i: int, j: int)
    requires keys <= a.Keys
    requires forall p :: p in keys ==> p.0 != i
    ensures RowProduct(a, b, keys, i, j) == 0
    decreases keys
  {
    if keys != {} {
      var p :| p in keys && RowProduct(a, b, keys, i, j) == Term(a, b, p, i, j) + RowProduct(a, b, keys - {p}, i, j);
      assert Term(a, b, p, i, j) == 0;
      RowProductOtherRows(a, b, keys - {p}, i, j);
    }
  }

  /** The textbook row-by-column product: the sum of `At(a, i, k) * At(b, k, j)` for `0 <= k < n`. */
  function DenseDot(a: Elements, b: Elements, i: int, j: int, n: nat): int
  {
    if n == 0 then 0 else DenseDot(a, b, i, j, n - 1) + At(a, i, n - 1) * At(b, n - 1, j)
  }

  /** The stored entries of `a` outside row `i`, and those of row `i` in the columns `[0, n)`. */
  ghost function KeysBefore(a: Elements, i: int, n: nat): (keys: set<Coord>)
    ensures keys <= a.Keys
  {
    set p | p in a.Keys && (p.0 != i || 0 <= p.1 < n)
  }

  lemma {:induction false} RowProductDenseUpTo(a: Elements, b: Elements, i: int, j: int, n: nat)
    ensures RowProduct(a, b, KeysBefore(a, i, n), i, j) == DenseDot(a, b, i, j, n)
  {
    if n == 0 {
      RowProductOtherRows(a, b, KeysBefore(a, i, 0), i, j);
    } else {
      RowProductDenseUpTo(a, b, i, j, n - 1);
      if (i, n - 1) in a {
        RowProductRemove(a, b, KeysBefore(a, i, n), (i, n - 1), i, j);
        assert KeysBefore(a, i, n) - {(i, n - 1)} == KeysBefore(a, i, n - 1);
      } else {
        assert KeysBefore(a, i, n) == KeysBefore(a, i, n - 1);
      }
    }
  }

  /**
    When every stored column of `a` lies in `[0, n)` (a matrix whose entries respect
    `numCols == n`), the sparse sum is the dense row-by-column product.
  */
  lemma RowProductIsDense(a: Elements, b: Elements, i: int, j: int, n: nat)
    requires forall p :: p in a ==> 0 <= p.1 < n
    ensures RowProduct(a, b, a.Keys, i, j) == DenseDot(a, b, i, j, n)
  {
    RowProductDenseUpTo(a, b, i, j, n);
    assert KeysBefore(a, i, n) == a.Keys;
  }

  /**
    `multiply_matrices(a, b)`: for every stored `(i, k)` of `a` and every `j` in
    `[0, b.numCols)` with `b.get(k, j) != 0`, adds `a[(i, k)] * b.get(k, j)` to the cell
    `(i, j)` of the result. The result has `a.numRows` rows and `b.numCols` columns; its cell
    `(i, j)` is `RowProduct` over all stored entries of `a` for `0 <= j < b.numCols` and 0
    elsewhere.
  */
  method MultiplyMatrices(a: SparseMatrix, b: SparseMatrix) returns (r: Result<SparseMatrix, ArithmeticError>)
    ensures r.Err? <==> a.numCols != b.numRows
    ensures r.Err? ==> r.error == DimensionDisagreement
    ensures r.Ok? ==> && fresh(r.value) && r.value.Valid()
                      && r.value.numRows == a.numRows && r.value.numCols == b.numCols
    ensures r.Ok? ==>
      forall i, j ::
        At(r.value.elements, i, j)
        == (if 0 <= j < b.numCols then RowProduct(a.elements, b.elements, a.elements.Keys, i, j) else 0)
  {
    if a.numCols != b.numRows {
      return Err(DimensionDisagreement);
    }
    var result := new SparseMatrix(a.numRows, b.numCols);
    var todo := a.elements.Keys;
    ghost var done: set<Coord> := {};
    while todo != {}
      invariant fresh(result) && result.numRows == a.numRows && result.numCols == b.numCols
      invariant todo !! done && todo + done == a.elements.Keys
      invariant NonZero(result.elements)
      invariant forall i, j ::
                  At(result.elements, i, j)
                  == (if 0 <= j < b.numCols then RowProduct(a.elements, b.elements, done, i, j) else 0)
      decreases todo
    {
      var key :| key in todo;
      var i, k, value1 := key.0, key.1, a.elements[key];
      var j := 0;
      while j < b.numCols
        invariant 0 <= j && (j <= b.numCols || j == 0)
        invariant result.numRows == a.numRows && result.numCols == b.numCols
        invariant NonZero(result.elements)
        invariant forall r, c ::
                    At(result.elements, r, c)
                    == (if 0 <= c < b.numCols
                        then RowProduct(a.elements, b.elements, done, r, c)
                             + (if r == i && c < j then value1 * At(b.elements, k, c) else 0)
                        else 0)
      {
        var value2 := b.GetElement(k, j);
        if value2 != 0 {
          result.SetElement(i, j, result.GetElement(i, j) + value1 * value2);
        }
        j := j + 1;
      }
      forall r, c | 0 <= c < b.numCols
        ensures RowProduct(a.elements, b.elements, done + {key}, r, c)
                == RowProduct(a.elements, b.elements, done, r, c) + Term(a.elements, b.elements, key, r, c)
      {
        RowProductRemove(a.elements, b.elements, done + {key}, key, r, c);
        assert done + {key} - {key} == done;
      }
      todo := todo - {key};
      done := done + {key};
    }
    return Ok(result);
  }
}
