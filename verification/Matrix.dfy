/**
 4x4 matrices over exact reals, stored as C stores them: sixteen cells, row after row.
 The in-place inversion of state.c is a sequence of exchange steps on a tableau; this module
 says what one step does to the linear equations that the tableau stands for.
 */
module Matrix {

  type Matrix = m: seq<real> | |m| == 16 witness seq(16, _ => 0.0)
  type Vec = v: seq<real> | |v| == 4 witness [0.0, 0.0, 0.0, 0.0]

  const Identity: Matrix :=
    [1.0, 0.0, 0.0, 0.0,
     0.0, 1.0, 0.0, 0.0,
     0.0, 0.0, 1.0, 0.0,
     0.0, 0.0, 0.0, 1.0]

  const Zero: Vec := [0.0, 0.0, 0.0, 0.0]

  function At(m: Matrix, i: nat, j: nat): real
    requires i < 4 && j < 4
  {
    m[4 * i + j]
  }

  /** Row `i` of `m` times the vector `v`. */
  function Dot(m: Matrix, i: nat, v: Vec): real
    requires i < 4
  {
    At(m, i, 0) * v[0] + At(m, i, 1) * v[1] + At(m, i, 2) * v[2] + At(m, i, 3) * v[3]
  }

  function Apply(m: Matrix, v: Vec): (r: Vec)
    ensures forall i: nat :: i < 4 ==> r[i] == Dot(m, i, v)
  {
    [Dot(m, 0, v), Dot(m, 1, v), Dot(m, 2, v), Dot(m, 3, v)]
  }

  function Column(m: Matrix, j: nat): Vec
    requires j < 4
  {
    [At(m, 0, j), At(m, 1, j), At(m, 2, j), At(m, 3, j)]
  }

  function FromCells(f: (nat, nat) -> real): (m: Matrix)
    ensures forall i: nat, j: nat :: i < 4 && j < 4 ==> At(m, i, j) == f(i, j)
  {
    [f(0, 0), f(0, 1), f(0, 2), f(0, 3),
     f(1, 0), f(1, 1), f(1, 2), f(1, 3),
     f(2, 0), f(2, 1), f(2, 2), f(2, 3),
     f(3, 0), f(3, 1), f(3, 2), f(3, 3)]
  }

  function Mul(a: Matrix, b: Matrix): Matrix {
    FromCells((i: nat, j: nat) => if i < 4 && j < 4 then Dot(a, i, Column(b, j)) else 0.0)
  }

  lemma Extensional(a: Matrix, b: Matrix)
    requires forall i: nat, j: nat :: i < 4 && j < 4 ==> At(a, i, j) == At(b, i, j)
    ensures a == b
  {
    forall k | 0 <= k < 16
      ensures a[k] == b[k]
    {
      assert At(a, k / 4, k % 4) == At(b, k / 4, k % 4);
    }
  }

  ghost predicate IsInverse(a: Matrix, b: Matrix) {
    Mul(a, b) == Identity && Mul(b, a) == Identity
  }

  ghost predicate Invertible(a: Matrix) {
    exists b: Matrix :: IsInverse(a, b)
  }

  ghost predicate Equation(a: Matrix, x: Vec, y: Vec) {
    y == Apply(a, x)
  }

  /** `b` undoes `a` on every vector. */
  ghost predicate Undoes(a: Matrix, b: Matrix) {
    forall x: Vec, y: Vec :: Equation(a, x, y) <==> Equation(b, y, x)
  }

  function Unit(j: nat): Vec
    requires j < 4
  {
    Zero[j := 1.0]
  }

  lemma ApplyUnit(a: Matrix, j: nat)
    requires j < 4
    ensures Apply(a, Unit(j)) == Column(a, j)
  {
  }

  lemma UndoesOneWay(a: Matrix, b: Matrix)
    requires forall x: Vec :: Apply(b, Apply(a, x)) == x
    ensures Mul(b, a) == Identity
  {
    forall i: nat, j: nat | i < 4 && j < 4
      ensures At(Mul(b, a), i, j) == At(Identity, i, j)
    {
      ApplyUnit(a, j);
      assert Apply(b, Apply(a, Unit(j))) == Unit(j);
      assert Apply(b, Column(a, j))[i] == Dot(b, i, Column(a, j));
    }
    Extensional(Mul(b, a), Identity);
  }

  lemma UndoesIsInverse(a: Matrix, b: Matrix)
    requires Undoes(a, b)
    ensures IsInverse(a, b)
  {
    forall x: Vec
      ensures Apply(b, Apply(a, x)) == x && Apply(a, Apply(b, x)) == x
    {
      assert Equation(a, x, Apply(a, x)) && Equation(b, x, Apply(b, x));
    }
    UndoesOneWay(a, b);
    UndoesOneWay(b, a);
  }

  lemma MulCell(b: Matrix, a: Matrix, i: nat, j: nat)
    requires i < 4 && j < 4
    ensures At(Mul(b, a), i, j) == Sum(Times(Row(b, i), Column(a, j)))
  {
    DotIsSum(b, i, Column(a, j));
  }

  /** Four coefficients combining the rows of `a`. */
  function Combined(c: Vec, a: Matrix): Vec {
    [Sum(Times(c, Column(a, 0))), Sum(Times(c, Column(a, 1))), Sum(Times(c, Column(a, 2))), Sum(Times(c, Column(a, 3)))]
  }

  lemma RowOfMul(b: Matrix, a: Matrix, i: nat)
    requires i < 4
    ensures Row(Mul(b, a), i) == Combined(Row(b, i), a)
  {
    hide Mul, Times, Sum, Column, At;
    MulCell(b, a, i, 0);
    MulCell(b, a, i, 1);
    MulCell(b, a, i, 2);
    MulCell(b, a, i, 3);
  }

  lemma DotOfMul(b: Matrix, a: Matrix, i: nat, x: Vec)
    requires i < 4
    ensures Dot(Mul(b, a), i, x) == Dot(b, i, Apply(a, x))
  {
    hide Mul, Times, Combined, Apply, Sum;
    DotIsSum(Mul(b, a), i, x);
    DotIsSum(b, i, Apply(a, x));
    RowOfMul(b, a, i);
    Distribute(Row(b, i), a, x);
  }

  lemma Distribute(c: Vec, a: Matrix, x: Vec)
    ensures Sum(Times(Combined(c, a), x)) == Sum(Times(c, Apply(a, x)))
  {
  }

  /** What has an inverse sends nothing but zero to zero. */
  lemma InverseKeepsNonzero(a: Matrix, b: Matrix, x: Vec)
    requires IsInverse(a, b) && Apply(a, x) == Zero
    ensures x == Zero
  {
    forall i: nat | i < 4
      ensures x[i] == 0.0
    {
      DotOfMul(b, a, i, x);
      assert Dot(Identity, i, x) == x[i];
    }
  }

  /** A matrix that sends a nonzero vector to zero has no inverse. */
  lemma SingularHasNoInverse(a: Matrix, x: Vec)
    requires Apply(a, x) == Zero && x != Zero
    ensures !Invertible(a)
  {
    hide IsInverse, Apply;
    if b: Matrix :| IsInverse(a, b) {
      InverseKeepsNonzero(a, b, x);
    }
  }

  /* The exchange step. */

  function Swap<T>(v: seq<T>, k: nat, p: nat): (r: seq<T>)
    requires k < |v| && p < |v|
    ensures |r| == |v|
  {
    v[k := v[p]][p := v[k]]
  }

  function SwapRows(m: Matrix, k: nat, p: nat): Matrix
    requires k < 4 && p < 4
  {
    FromCells((i: nat, j: nat) =>
      if i < 4 && j < 4 then At(m, if i == k then p else if i == p then k else i, j) else 0.0)
  }

  function SwapColumns(m: Matrix, k: nat, p: nat): Matrix
    requires k < 4 && p < 4
  {
    FromCells((i: nat, j: nat) =>
      if i < 4 && j < 4 then At(m, i, if j == k then p else if j == p then k else j) else 0.0)
  }

  function ExchangedCell(m: Matrix, k: nat, i: nat, j: nat): real
    requires k < 4 && i < 4 && j < 4 && At(m, k, k) != 0.0
  {
    var pivot := At(m, k, k);
    if i == k && j == k then 1.0 / pivot
    else if i == k then -At(m, k, j) / pivot
    else if j == k then At(m, i, k) / pivot
    else At(m, i, j) + At(m, i, k) * (-At(m, k, j) / pivot)
  }

  /** The tableau after variable `k` on the right has changed places with the one on the left. */
  function Exchange(m: Matrix, k: nat): (e: Matrix)
    requires k < 4 && At(m, k, k) != 0.0
    ensures forall i: nat, j: nat :: i < 4 && j < 4 ==> At(e, i, j) == ExchangedCell(m, k, i, j)
  {
    hide ExchangedCell;
    FromCells((i: nat, j: nat) => if i < 4 && j < 4 then ExchangedCell(m, k, i, j) else 0.0)
  }

  lemma ApplySwapRows(m: Matrix, k: nat, p: nat, r: Vec)
    requires k < 4 && p < 4
    ensures Apply(SwapRows(m, k, p), r) == Swap(Apply(m, r), k, p)
  {
    forall i: nat | i < 4
      ensures Apply(SwapRows(m, k, p), r)[i] == Swap(Apply(m, r), k, p)[i]
    {
      var from := if i == k then p else if i == p then k else i;
      forall j: nat | j < 4
        ensures At(SwapRows(m, k, p), i, j) == At(m, from, j)
      {
      }
      SameRow(SwapRows(m, k, p), i, m, from, r);
    }
  }

  lemma SameRow(a: Matrix, i: nat, b: Matrix, l: nat, r: Vec)
    requires i < 4 && l < 4 && forall j: nat :: j < 4 ==> At(a, i, j) == At(b, l, j)
    ensures Apply(a, r)[i] == Dot(a, i, r) == Dot(b, l, r) == Apply(b, r)[l]
  {
    hide At;
    assert At(a, i, 0) == At(b, l, 0) && At(a, i, 1) == At(b, l, 1);
    assert At(a, i, 2) == At(b, l, 2) && At(a, i, 3) == At(b, l, 3);
  }

  lemma ApplySwapColumns(m: Matrix, k: nat, p: nat, r: Vec)
    requires k < 4 && p < 4
    ensures Apply(SwapColumns(m, k, p), Swap(r, k, p)) == Apply(m, r)
  {
    forall i: nat | i < 4
      ensures Dot(SwapColumns(m, k, p), i, Swap(r, k, p)) == Dot(m, i, r)
    {
      RowOfSwapColumns(m, k, p, i);
      hide SwapColumns;
      DotIsSum(SwapColumns(m, k, p), i, Swap(r, k, p));
      DotIsSum(m, i, r);
      SwapInSum(Row(m, i), r, k, p);
    }
  }

  lemma RowOfSwapColumns(m: Matrix, k: nat, p: nat, i: nat)
    requires k < 4 && p < 4 && i < 4
    ensures Row(SwapColumns(m, k, p), i) == Swap(Row(m, i), k, p)
  {
  }

  lemma DotIsSum(m: Matrix, i: nat, r: Vec)
    requires i < 4
    ensures Dot(m, i, r) == Sum(Times(Row(m, i), r))
  {
  }

  function Row(m: Matrix, i: nat): (v: Vec)
    requires i < 4
    ensures forall j: nat :: j < 4 ==> v[j] == At(m, i, j)
  {
    [At(m, i, 0), At(m, i, 1), At(m, i, 2), At(m, i, 3)]
  }

  function Sum(v: Vec): real {
    v[0] + v[1] + v[2] + v[3]
  }

  function Times(v: Vec, w: Vec): (t: Vec)
    ensures forall j :: 0 <= j < 4 ==> t[j] == v[j] * w[j]
  {
    [v[0] * w[0], v[1] * w[1], v[2] * w[2], v[3] * w[3]]
  }

  lemma SwapInSum(v: Vec, w: Vec, k: nat, p: nat)
    requires k < 4 && p < 4
    ensures Sum(Times(Swap(v, k, p), Swap(w, k, p))) == Sum(Times(v, w))
  {
    TimesSwap(v, w, k, p);
    hide Times;
    SumSwap(Times(v, w), k, p);
  }

  lemma TimesSwap(v: Vec, w: Vec, k: nat, p: nat)
    requires k < 4 && p < 4
    ensures Times(Swap(v, k, p), Swap(w, k, p)) == Swap(Times(v, w), k, p)
  {
    hide Times;
    var t := Times(Swap(v, k, p), Swap(w, k, p));
    forall j: nat | j < 4
      ensures t[j] == Swap(Times(v, w), k, p)[j]
    {
      var from := if j == k then p else if j == p then k else j;
      assert t[j] == v[from] * w[from] == Times(v, w)[from];
    }
  }

  lemma SumSwap(u: Vec, k: nat, p: nat)
    requires k < 4 && p < 4
    ensures Sum(Swap(u, k, p)) == Sum(u)
  {
  }

  /** Row `i` times `r` without the term of column `k`. */
  function DotExcept(m: Matrix, i: nat, k: nat, r: Vec): real
    requires i < 4 && k < 4
  {
    (if k == 0 then 0.0 else At(m, i, 0) * r[0]) + (if k == 1 then 0.0 else At(m, i, 1) * r[1]) +
    (if k == 2 then 0.0 else At(m, i, 2) * r[2]) + (if k == 3 then 0.0 else At(m, i, 3) * r[3])
  }

  lemma SplitDot(m: Matrix, i: nat, k: nat, r: Vec)
    requires i < 4 && k < 4
    ensures Dot(m, i, r) == DotExcept(m, i, k, r) + At(m, i, k) * r[k]
  {
  }

  /** The term of column `j` in row `i` of `m` times `r`, leaving out column `k`. */
  function Term(m: Matrix, i: nat, k: nat, r: Vec, j: nat): real
    requires i < 4 && k < 4 && j < 4
  {
    if j == k then 0.0 else At(m, i, j) * r[j]
  }

  function TermsExcept(m: Matrix, i: nat, k: nat, r: Vec): (t: Vec)
    requires i < 4 && k < 4
    ensures forall j: nat :: j < 4 ==> t[j] == Term(m, i, k, r, j)
  {
    [Term(m, i, k, r, 0), Term(m, i, k, r, 1), Term(m, i, k, r, 2), Term(m, i, k, r, 3)]
  }

  /** What the exchange adds to the other terms of row `i`: this many times those of row `k`. */
  function Weight(m: Matrix, k: nat, i: nat): real
    requires k < 4 && i < 4 && At(m, k, k) != 0.0
  {
    if i == k then -1.0 / At(m, k, k) else At(m, i, k) * (-1.0 / At(m, k, k))
  }

  lemma ExchangedTimes(m: Matrix, k: nat, i: nat, j: nat, x: real)
    requires k < 4 && i < 4 && j < 4 && At(m, k, k) != 0.0 && j != k
    ensures ExchangedCell(m, k, i, j) * x ==
            (if i == k then 0.0 else At(m, i, j) * x) + Weight(m, k, i) * (At(m, k, j) * x)
  {
    hide At;
    ExchangeCell(At(m, i, j), At(m, i, k), At(m, k, j), At(m, k, k), x);
  }

  lemma ExchangeTerm(m: Matrix, k: nat, i: nat, j: nat, r: Vec)
    requires k < 4 && i < 4 && j < 4 && At(m, k, k) != 0.0
    ensures Term(Exchange(m, k), i, k, r, j) ==
            (if i == k then 0.0 else Term(m, i, k, r, j)) + Weight(m, k, i) * Term(m, k, k, r, j)
  {
    hide Exchange, Weight, ExchangedCell, At;
    if j != k {
      ExchangedTimes(m, k, i, j, r[j]);
      assert At(Exchange(m, k), i, j) == ExchangedCell(m, k, i, j);
    }
  }

  lemma SumScaled(e: Vec, t: Vec, w: real, u: Vec)
    requires forall j: nat :: j < 4 ==> e[j] == t[j] + w * u[j]
    ensures Sum(e) == Sum(t) + w * Sum(u)
  {
    Factor(w, u);
  }

  lemma SumOfZero()
    ensures Sum(Zero) == 0.0
  {
  }

  /** How the other columns of row `i` change, summed up. */
  lemma ExchangeRest(m: Matrix, k: nat, i: nat, r: Vec)
    requires k < 4 && i < 4 && At(m, k, k) != 0.0
    ensures DotExcept(Exchange(m, k), i, k, r) ==
            (if i == k then 0.0 else DotExcept(m, i, k, r)) + Weight(m, k, i) * DotExcept(m, k, k, r)
  {
    hide Exchange, TermsExcept, Term, DotExcept, Weight, Sum;
    DotExceptIsSum(m, i, k, r);
    DotExceptIsSum(m, k, k, r);
    DotExceptIsSum(Exchange(m, k), i, k, r);
    var e := TermsExcept(Exchange(m, k), i, k, r);
    var t := if i == k then Zero else TermsExcept(m, i, k, r);
    var u := TermsExcept(m, k, k, r);
    forall j: nat | j < 4
      ensures e[j] == t[j] + Weight(m, k, i) * u[j]
    {
      ExchangeTerm(m, k, i, j, r);
    }
    SumScaled(e, t, Weight(m, k, i), u);
    SumOfZero();
  }

  lemma DotExceptIsSum(m: Matrix, i: nat, k: nat, r: Vec)
    requires i < 4 && k < 4
    ensures DotExcept(m, i, k, r) == Sum(TermsExcept(m, i, k, r))
  {
  }

  lemma Factor(w: real, u: Vec)
    ensures w * u[0] + w * u[1] + w * u[2] + w * u[3] == w * Sum(u)
  {
  }

  lemma ExchangeCell(x: real, y: real, z: real, p: real, r: real)
    requires p != 0.0
    ensures (-z / p) * r == (-1.0 / p) * (z * r)
    ensures (x + y * (-z / p)) * r == x * r + (y * (-1.0 / p)) * (z * r)
  {
    var q := 1.0 / p;
    DivideByMultiplying(-z, p);
    DivideByMultiplying(-1.0, p);
  }

  lemma DivideByMultiplying(x: real, p: real)
    requires p != 0.0
    ensures x / p == x * (1.0 / p)
  {
  }

  /** Row `k` of the equations `l == m r`, solved for the right variable `k`. */
  function SolveFor(m: Matrix, k: nat, l: Vec, r: Vec): real
    requires k < 4 && At(m, k, k) != 0.0
  {
    (l[k] - DotExcept(m, k, k, r)) / At(m, k, k)
  }

  lemma SolveForIsRow(m: Matrix, k: nat, l: Vec, r: Vec)
    requires k < 4 && At(m, k, k) != 0.0
    ensures l[k] == Dot(m, k, r) <==> r[k] == SolveFor(m, k, l, r)
  {
    SplitDot(m, k, k, r);
    hide Dot, DotExcept;
    Solved(l[k], DotExcept(m, k, k, r), At(m, k, k), r[k]);
  }

  lemma Solved(x: real, s: real, p: real, r: real)
    requires p != 0.0
    ensures x == s + p * r <==> r == (x - s) / p
  {
  }

  /**
   The equations `l == m r` and the equations of the exchanged tableau, in which the left and the
   right variable `k` have changed places, have the same solutions.
   */
  lemma ExchangeEquivalent(m: Matrix, k: nat, l: Vec, r: Vec)
    requires k < 4 && At(m, k, k) != 0.0
    ensures l == Apply(m, r) <==> l[k := r[k]] == Apply(Exchange(m, k), r[k := l[k]])
  {
    hide Exchange, SolveFor, Dot, Apply;
    var e, r', l' := Exchange(m, k), r[k := l[k]], l[k := r[k]];
    SolveForIsRow(m, k, l, r);
    forall i: nat | i < 4
      ensures Dot(e, i, r') == if i == k then SolveFor(m, k, l, r) else Dot(e, i, r')
      ensures i != k && SolveFor(m, k, l, r) == r[k] ==> Dot(e, i, r') == Dot(m, i, r)
    {
      ExchangedRow(m, k, i, l, r);
    }
    if l == Apply(m, r) {
      assert l[k] == Dot(m, k, r);
      assert forall i: nat :: i < 4 ==> l'[i] == Apply(e, r')[i];
    }
    if l' == Apply(e, r') {
      assert l'[k] == Dot(e, k, r');
      assert forall i: nat :: i < 4 ==> l[i] == Apply(m, r)[i];
    }
  }

  lemma ExchangedRow(m: Matrix, k: nat, i: nat, l: Vec, r: Vec)
    requires k < 4 && i < 4 && At(m, k, k) != 0.0
    ensures i == k ==> Dot(Exchange(m, k), i, r[k := l[k]]) == SolveFor(m, k, l, r)
    ensures i != k && SolveFor(m, k, l, r) == r[k] ==>
              Dot(Exchange(m, k), i, r[k := l[k]]) == Dot(m, i, r)
  {
    hide Exchange, Dot, DotExcept;
    var e, r' := Exchange(m, k), r[k := l[k]];
    SplitDot(e, i, k, r');
    SplitDot(m, i, k, r);
    DotExceptIgnores(e, i, k, r, l[k]);
    ExchangeRest(m, k, i, r);
    ExchangedSum(At(m, k, k), l[k], DotExcept(m, k, k, r), At(m, i, k));
  }

  lemma DotExceptIgnores(m: Matrix, i: nat, k: nat, r: Vec, x: real)
    requires i < 4 && k < 4
    ensures DotExcept(m, i, k, r[k := x]) == DotExcept(m, i, k, r)
  {
  }

  lemma ExchangedSum(p: real, x: real, s: real, c: real)
    requires p != 0.0
    ensures (-1.0 / p) * s + (1.0 / p) * x == (x - s) / p
    ensures (c * (-1.0 / p)) * s + (c / p) * x == c * ((x - s) / p)
  {
    DivideByMultiplying(-1.0, p);
    DivideByMultiplying(c, p);
    DivideByMultiplying(x - s, p);
  }
}
