/**
 The inversion of prf_state_get_inverse_matrix: pivoted exchange steps on one array of sixteen
 cells, then the row swaps undone as column swaps.  Throughout, the array is a tableau for the
 equations `y == A x`: before step `k` it expresses the first `k` components of `x` and the
 remaining ones of `y` by the others.  A float quotient by a zero row sum is not a number in C and
 fails the comparison that follows; here such a row is skipped.
 */
module Inversion {
  import opened Matrix

  type Rows = p: seq<nat> | |p| == 4 && forall i :: 0 <= i < 4 ==> p[i] < 4 witness [0, 1, 2, 3]

  const UNSWAPPED: Rows := [0, 1, 2, 3]

  /** The variables the tableau expresses before step `k`; `rp` says where the rows of `y` are. */
  function Left(x: Vec, y: Vec, rp: Rows, k: nat): (l: Vec)
    ensures forall i: nat :: i < 4 ==> l[i] == if i < k then x[i] else y[rp[i]]
  {
    [if 0 < k then x[0] else y[rp[0]], if 1 < k then x[1] else y[rp[1]],
     if 2 < k then x[2] else y[rp[2]], if 3 < k then x[3] else y[rp[3]]]
  }

  /** The variables it expresses them by. */
  function Right(x: Vec, y: Vec, rp: Rows, k: nat): (r: Vec)
    ensures forall i: nat :: i < 4 ==> r[i] == if i < k then y[rp[i]] else x[i]
  {
    [if 0 < k then y[rp[0]] else x[0], if 1 < k then y[rp[1]] else x[1],
     if 2 < k then y[rp[2]] else x[2], if 3 < k then y[rp[3]] else x[3]]
  }

  ghost predicate Holds(m: Matrix, x: Vec, y: Vec, rp: Rows, k: nat) {
    Left(x, y, rp, k) == Apply(m, Right(x, y, rp, k))
  }

  /** The tableau `m` has the same solutions as the equations `y == a x`. */
  ghost predicate Tableau(a: Matrix, m: Matrix, rp: Rows, k: nat) {
    forall x: Vec, y: Vec :: Equation(a, x, y) <==> Holds(m, x, y, rp, k)
  }

  lemma TableauStart(a: Matrix)
    ensures Tableau(a, a, UNSWAPPED, 0)
  {
    hide Apply;
    forall x: Vec, y: Vec
      ensures Equation(a, x, y) <==> Holds(a, x, y, UNSWAPPED, 0)
    {
      assert Left(x, y, UNSWAPPED, 0) == y && Right(x, y, UNSWAPPED, 0) == x;
    }
  }

  lemma TableauSwap(a: Matrix, m: Matrix, rp: Rows, k: nat, p: nat)
    requires Tableau(a, m, rp, k) && k <= p < 4
    ensures Tableau(a, SwapRows(m, k, p), Swap(rp, k, p), k)
  {
    hide Apply, SwapRows, Left, Right;
    forall x: Vec, y: Vec
      ensures Equation(a, x, y) <==> Holds(SwapRows(m, k, p), x, y, Swap(rp, k, p), k)
    {
      var l, r := Left(x, y, rp, k), Right(x, y, rp, k);
      assert Left(x, y, Swap(rp, k, p), k) == Swap(l, k, p);
      assert Right(x, y, Swap(rp, k, p), k) == r;
      ApplySwapRows(m, k, p, r);
      assert Swap(Swap(l, k, p), k, p) == l;
      assert Swap(Swap(Apply(m, r), k, p), k, p) == Apply(m, r);
    }
  }

  lemma TableauExchange(a: Matrix, m: Matrix, rp: Rows, k: nat)
    requires k < 4 && Tableau(a, m, rp, k) && At(m, k, k) != 0.0
    ensures Tableau(a, Exchange(m, k), rp, k + 1)
  {
    hide Apply, Exchange, Left, Right;
    forall x: Vec, y: Vec
      ensures Equation(a, x, y) <==> Holds(Exchange(m, k), x, y, rp, k + 1)
    {
      var l, r := Left(x, y, rp, k), Right(x, y, rp, k);
      assert Left(x, y, rp, k + 1) == l[k := r[k]];
      assert Right(x, y, rp, k + 1) == r[k := l[k]];
      ExchangeEquivalent(m, k, l, r);
    }
  }

  /** No pivot in column `k`: then some nonzero vector is sent to zero. */
  lemma TableauSingular(a: Matrix, m: Matrix, rp: Rows, k: nat)
    requires k < 4 && Tableau(a, m, rp, k)
    requires forall i: nat :: k <= i < 4 ==> At(m, i, k) == 0.0
    ensures !Invertible(a)
  {
    var x: Vec := Witness(m, k);
    ApplyUnit(m, k);
    WitnessLeft(m, rp, k);
    hide Apply, Left, Right, Column, At, Witness;
    assert Equation(a, x, Zero) <==> Holds(m, x, Zero, rp, k);
    SingularHasNoInverse(a, x);
  }

  /** The solution with the right variable `k` one and the other right variables zero. */
  function Witness(m: Matrix, k: nat): (x: Vec)
    requires k < 4
  {
    seq(4, i requires 0 <= i < 4 => if i < k then At(m, i, k) else if i == k then 1.0 else 0.0)
  }

  lemma WitnessLeft(m: Matrix, rp: Rows, k: nat)
    requires k < 4 && forall i: nat :: k <= i < 4 ==> At(m, i, k) == 0.0
    ensures Left(Witness(m, k), Zero, rp, k) == Column(m, k)
    ensures Right(Witness(m, k), Zero, rp, k) == Unit(k)
    ensures Witness(m, k) != Zero
  {
    assert Witness(m, k)[k] == 1.0 && Zero[k] == 0.0;
    hide At;
    var l, r := Left(Witness(m, k), Zero, rp, k), Right(Witness(m, k), Zero, rp, k);
    assert forall i: nat :: i < 4 ==> l[i] == if i < k then At(m, i, k) else 0.0;
    assert forall i: nat :: i < 4 ==> r[i] == Unit(k)[i];
  }

  lemma TableauUnswap(a: Matrix, m: Matrix, rp: Rows, k: nat, p: nat)
    requires k < 4 && p < 4 && Tableau(a, m, Swap(rp, k, p), 4)
    ensures Tableau(a, SwapColumns(m, k, p), rp, 4)
  {
    hide Apply, SwapColumns, Left, Right;
    forall x: Vec, y: Vec
      ensures Equation(a, x, y) <==> Holds(SwapColumns(m, k, p), x, y, rp, 4)
    {
      var r := Right(x, y, rp, 4);
      assert Equation(a, x, y) <==> Holds(m, x, y, Swap(rp, k, p), 4);
      assert Right(x, y, Swap(rp, k, p), 4) == Swap(r, k, p);
      assert Left(x, y, Swap(rp, k, p), 4) == Left(x, y, rp, 4);
      ApplySwapColumns(m, k, p, Swap(r, k, p));
      assert Swap(Swap(r, k, p), k, p) == r;
    }
  }

  lemma TableauDone(a: Matrix, m: Matrix)
    requires Tableau(a, m, UNSWAPPED, 4)
    ensures IsInverse(a, m)
  {
    hide Apply, IsInverse;
    forall x: Vec, y: Vec
      ensures Holds(m, x, y, UNSWAPPED, 4) <==> Equation(m, y, x)
    {
      assert Left(x, y, UNSWAPPED, 4) == x && Right(x, y, UNSWAPPED, 4) == y;
    }
    UndoesIsInverse(a, m);
  }

  function Abs(x: real): real { if x < 0.0 then -x else x }

  /** The sum of the absolute values in row `i`, columns `k` up to `n`. */
  function RowSum(m: Matrix, i: nat, k: nat, n: nat): real
    requires i < 4 && k <= n <= 4
  {
    if n == k then 0.0 else RowSum(m, i, k, n - 1) + Abs(At(m, i, n - 1))
  }

  lemma {:induction false} RowSumBounds(m: Matrix, i: nat, k: nat, n: nat)
    requires i < 4 && k <= n <= 4
    ensures RowSum(m, i, k, n) >= if k < n then Abs(At(m, i, k)) else 0.0
  {
    if k < n {
      RowSumBounds(m, i, k, n - 1);
    }
  }

  /** How large row `i` is in column `k`, in proportion to the rest of the row. */
  function Scaled(m: Matrix, i: nat, k: nat): real
    requires i < 4 && k < 4
  {
    var s := RowSum(m, i, k, 4);
    if s == 0.0 then 0.0 else Abs(At(m, i, k)) / s
  }

  lemma ScaledSign(m: Matrix, i: nat, k: nat)
    requires i < 4 && k < 4
    ensures Scaled(m, i, k) >= 0.0
    ensures Scaled(m, i, k) == 0.0 <==> At(m, i, k) == 0.0
  {
    RowSumBounds(m, i, k, 4);
    var s, x := RowSum(m, i, k, 4), Abs(At(m, i, k));
    if s != 0.0 {
      assert (x / s) * s == x;
    }
  }

  method Set(a: array<real>, i: nat, j: nat, x: real)
    requires a.Length == 16 && i < 4 && j < 4
    modifies a
    ensures forall i': nat, j': nat :: i' < 4 && j' < 4 ==>
              At(a[..], i', j') == if i' == i && j' == j then x else At(old(a[..]), i', j')
  {
    a[4 * i + j] := x;
  }

  method FindPivot(a: array<real>, k: nat) returns (p: nat, max: real)
    requires a.Length == 16 && k < 4
    ensures p < 4
    ensures max == 0.0 ==> forall i: nat :: k <= i < 4 ==> At(a[..], i, k) == 0.0
    ensures max != 0.0 ==> k <= p < 4 && At(a[..], p, k) != 0.0
    ensures max != 0.0 ==> forall i: nat :: k <= i < 4 ==> Scaled(a[..], i, k) <= Scaled(a[..], p, k)
  {
    max, p := 0.0, 0;
    for i := k to 4
      invariant max >= 0.0 && p < 4
      invariant max > 0.0 ==> k <= p < 4 && max == Scaled(a[..], p, k)
      invariant forall i': nat :: k <= i' < i ==> Scaled(a[..], i', k) <= max
    {
      var s := 0.0;
      for j := k to 4
        invariant s == RowSum(a[..], i, k, j)
      {
        s := s + Abs(a[4 * i + j]);
      }
      if s != 0.0 {
        var q := Abs(a[4 * i + k]) / s;
        if q > max {
          max := q;
          p := i;
        }
      }
    }
    forall i: nat | k <= i < 4
      ensures Scaled(a[..], i, k) >= 0.0
      ensures Scaled(a[..], i, k) == 0.0 <==> At(a[..], i, k) == 0.0
    {
      ScaledSign(a[..], i, k);
    }
  }

  method SwapRowsInPlace(a: array<real>, k: nat, p: nat)
    requires a.Length == 16 && k < 4 && p < 4
    modifies a
    ensures a[..] == SwapRows(old(a[..]), k, p)
  {
    ghost var m := a[..];
    for j := 0 to 4
      invariant forall i: nat, j': nat :: i < 4 && j' < 4 ==>
                  At(a[..], i, j') == At(if j' < j then SwapRows(m, k, p) else m, i, j')
    {
      var h := a[4 * k + j];
      assert h == At(a[..], k, j) && a[4 * p + j] == At(a[..], p, j);
      Set(a, k, j, a[4 * p + j]);
      Set(a, p, j, h);
    }
    Extensional(a[..], SwapRows(m, k, p));
  }

  method SwapColumnsInPlace(a: array<real>, k: nat, p: nat)
    requires a.Length == 16 && k < 4 && p < 4
    modifies a
    ensures a[..] == SwapColumns(old(a[..]), k, p)
  {
    ghost var m := a[..];
    for i := 0 to 4
      invariant forall i': nat, j: nat :: i' < 4 && j < 4 ==>
                  At(a[..], i', j) == At(if i' < i then SwapColumns(m, k, p) else m, i', j)
    {
      var h := a[4 * i + k];
      assert h == At(a[..], i, k) && a[4 * i + p] == At(a[..], i, p);
      Set(a, i, k, a[4 * i + p]);
      Set(a, i, p, h);
    }
    Extensional(a[..], SwapColumns(m, k, p));
  }

  method ExchangeInPlace(a: array<real>, k: nat)
    requires a.Length == 16 && k < 4 && At(a[..], k, k) != 0.0
    modifies a
    ensures a[..] == Exchange(old(a[..]), k)
  {
    hide Exchange, ExchangedCell;
    ghost var m := a[..];
    var pivot := a[4 * k + k];
    for j := 0 to 4
      invariant forall i: nat, j': nat :: i < 4 && j' < 4 ==>
                  At(a[..], i, j') == if j' < j && j' != k then ExchangedCell(m, k, i, j') else At(m, i, j')
    {
      if j != k {
        ExchangeColumn(a, m, k, j, pivot);
      }
    }
    DividePivotColumn(a, m, k, pivot);
    Extensional(a[..], Exchange(m, k));
  }

  /** The body of the loop over the columns other than the pivot's. */
  method ExchangeColumn(a: array<real>, ghost m: Matrix, k: nat, j: nat, pivot: real)
    requires a.Length == 16 && k < 4 && j < 4 && j != k
    requires pivot == At(m, k, k) != 0.0
    requires forall i: nat :: i < 4 ==> At(a[..], i, j) == At(m, i, j) && At(a[..], i, k) == At(m, i, k)
    modifies a
    ensures forall i: nat, j': nat :: i < 4 && j' < 4 ==>
              At(a[..], i, j') == if j' == j then ExchangedCell(m, k, i, j) else At(old(a[..]), i, j')
  {
    ghost var was := a[..];
    assert a[4 * k + j] == At(a[..], k, j);
    Set(a, k, j, -a[4 * k + j] / pivot);
    for i := 0 to 4
      invariant forall i': nat, j': nat :: i' < 4 && j' < 4 ==>
                  At(a[..], i', j') ==
                  if j' == j && (i' < i || i' == k) then ExchangedCell(m, k, i', j) else At(was, i', j')
    {
      if i != k {
        assert a[4 * i + j] == At(a[..], i, j) && a[4 * i + k] == At(a[..], i, k);
        assert a[4 * k + j] == At(a[..], k, j) == ExchangedCell(m, k, k, j);
        Set(a, i, j, a[4 * i + j] + a[4 * i + k] * a[4 * k + j]);
      }
    }
  }

  method DividePivotColumn(a: array<real>, ghost m: Matrix, k: nat, pivot: real)
    requires a.Length == 16 && k < 4 && pivot == At(m, k, k) != 0.0
    requires forall i: nat :: i < 4 ==> At(a[..], i, k) == At(m, i, k)
    modifies a
    ensures forall i: nat, j: nat :: i < 4 && j < 4 ==>
              At(a[..], i, j) == if j == k then ExchangedCell(m, k, i, k) else At(old(a[..]), i, j)
  {
    ghost var was := a[..];
    for i := 0 to 4
      invariant forall i': nat, j: nat :: i' < 4 && j < 4 ==>
                  At(a[..], i', j) == if j == k && i' < i then At(m, i', k) / pivot else At(was, i', j)
    {
      assert a[4 * i + k] == At(a[..], i, k);
      Set(a, i, k, a[4 * i + k] / pivot);
    }
    Set(a, k, k, 1.0 / pivot);
  }

  /** One pass of the elimination loop: finds the pivot of column `k`, moves it up and exchanges. */
  method Eliminate(a: array<real>, k: nat, ghost A: Matrix, ghost rp: Rows) returns (ok: bool, pk: nat)
    requires a.Length == 16 && k < 4 && Tableau(A, a[..], rp, k)
    modifies a
    ensures !ok ==> !Invertible(A)
    ensures ok ==> k <= pk < 4 && Tableau(A, a[..], Swap(rp, k, pk), k + 1)
  {
    hide Tableau, Invertible, Exchange, SwapRows;
    var max;
    pk, max := FindPivot(a, k);
    ok := max != 0.0;
    if !ok {
      TableauSingular(A, a[..], rp, k);
      return;
    }
    ghost var m := a[..];
    SwapRowsPivot(m, k, pk);
    TableauSwap(A, m, rp, k, pk);
    if pk != k {
      SwapRowsInPlace(a, k, pk);
    }
    TableauExchange(A, a[..], Swap(rp, k, pk), k);
    ExchangeInPlace(a, k);
  }

  /** The order of the rows of `y` after the first `k` row swaps. */
  ghost function Swapped(p: Rows, k: nat): Rows
    requires k <= 4
  {
    if k == 0 then UNSWAPPED else Swap(Swapped(p, k - 1), k - 1, p[k - 1])
  }

  lemma {:induction false} SwappedPrefix(p: Rows, q: Rows, k: nat)
    requires k <= 4 && p[..k] == q[..k]
    ensures Swapped(p, k) == Swapped(q, k)
  {
    if k > 0 {
      assert p[k - 1] == p[..k][k - 1] && p[..k][..k - 1] == p[..k - 1] && q[..k][..k - 1] == q[..k - 1];
      SwappedPrefix(p, q, k - 1);
    }
  }

  /** Undoes the row swaps, last one first, on the columns. */
  method SwapBack(a: array<real>, p: Rows, ghost A: Matrix)
    requires a.Length == 16 && p[3] == 3 && Tableau(A, a[..], Swapped(p, 4), 4)
    modifies a
    ensures Tableau(A, a[..], UNSWAPPED, 4)
  {
    hide Tableau, SwapColumns;
    assert Swapped(p, 4) == Swap(Swapped(p, 3), 3, 3) == Swapped(p, 3);
    var k := 4 - 2;
    while k >= 0
      invariant -1 <= k <= 2
      invariant Tableau(A, a[..], Swapped(p, k + 1), 4)
    {
      ghost var m := a[..];
      TableauUnswap(A, m, Swapped(p, k), k, p[k]);
      SwapColumnsSame(m, k);
      if p[k] != k {
        SwapColumnsInPlace(a, k, p[k]);
      }
      k := k - 1;
    }
  }

  /**
   Inverts the matrix in `a` in place.  On success `a` holds the inverse; the inversion fails exactly
   on the matrices that have none, and then leaves `a` half way.
   */
  method InvertInPlace(a: array<real>) returns (ok: bool)
    requires a.Length == 16
    modifies a
    ensures ok <==> Invertible(old(a[..]))
    ensures ok ==> IsInverse(old(a[..]), a[..])
  {
    ghost var A := a[..];
    var p: Rows := UNSWAPPED;
    TableauStart(A);
    hide Tableau, Invertible, IsInverse;
    for k := 0 to 4
      invariant Tableau(A, a[..], Swapped(p, k), k)
      invariant k == 4 ==> p[3] == 3
    {
      var found, pk := Eliminate(a, k, A, Swapped(p, k));
      if !found {
        return false;
      }
      SwappedPrefix(p, p[k := pk], k);
      p := p[k := pk];
    }
    SwapBack(a, p, A);
    TableauDone(A, a[..]);
    InverseWitness(A, a[..]);
    ok := true;
  }

  lemma SwapRowsPivot(m: Matrix, k: nat, p: nat)
    requires k < 4 && p < 4
    ensures At(SwapRows(m, k, p), k, k) == At(m, p, k)
    ensures k == p ==> SwapRows(m, k, p) == m
  {
    if k == p {
      Extensional(SwapRows(m, k, p), m);
    }
  }

  lemma SwapColumnsSame(m: Matrix, k: nat)
    requires k < 4
    ensures SwapColumns(m, k, k) == m
  {
    Extensional(SwapColumns(m, k, k), m);
  }

  lemma InverseWitness(a: Matrix, b: Matrix)
    requires IsInverse(a, b)
    ensures Invertible(a)
  {
  }
}
