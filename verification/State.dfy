/**
 The part of a traversal state that state.c keeps about matrices: a stack of them, a cached inverse
 of the one on top, and the flag that says the cache is out of date.
 */
module State {
  import opened Matrix
  import opened Inversion

  class TraversalState {
    var matrices: seq<Matrix>     // slots above the push level are left over from earlier pushes
    const inverse: array<real>
    var inverseDirty: bool
    var pushLevel: nat
    var physicalLevel: nat

    function Top(): Matrix
      requires pushLevel < |matrices|
      reads this
    {
      matrices[pushLevel]
    }

    /** The matrices of the levels in use. */
    function Stack(): seq<Matrix>
      requires pushLevel < |matrices|
      reads this
    {
      matrices[..pushLevel + 1]
    }

    /** Whenever the flag is down, the cache holds the inverse of the matrix on top. */
    ghost predicate Valid()
      reads this, inverse
    {
      && inverse.Length == 16
      && pushLevel < |matrices|
      && (!inverseDirty ==> IsInverse(Top(), inverse[..]))
    }

    /** prf_state_create: one level, with the identity. */
    constructor ()
      ensures Valid() && fresh(inverse)
      ensures Stack() == [Identity] && pushLevel == 0 && physicalLevel == 0 && inverseDirty
    {
      matrices := [Identity];
      inverse := new real[16](_ => 0.0);
      inverseDirty := true;
      pushLevel, physicalLevel := 0, 0;
    }

    method Push()
      requires Valid()
      modifies this`matrices, this`pushLevel
      ensures Valid()
      ensures Stack() == old(Stack()) + [old(Top())]
    {
      hide IsInverse;
      pushLevel := pushLevel + 1;
      if |matrices| <= pushLevel {
        matrices := matrices + [Identity];
      }
      matrices := matrices[pushLevel := matrices[pushLevel - 1]];
    }

    /**
     Keeps the cached inverse only if the matrix below equals the one on top, and never on the way
     down to the bottom level.
     */
    method Pop()
      requires Valid() && pushLevel > 0
      modifies this`inverseDirty, this`pushLevel
      ensures Valid()
      ensures Stack() == old(Stack()[..pushLevel])
      ensures old(inverseDirty) ==> inverseDirty
    {
      hide IsInverse;
      if !inverseDirty {
        if pushLevel > 1 {
          var m1, m2 := matrices[pushLevel - 1], matrices[pushLevel];
          if m1 != m2 {
            inverseDirty := true;
          }
        } else {
          inverseDirty := true;
        }
      }
      pushLevel := pushLevel - 1;
    }

    /** Replaces the matrix on top by its product with `m`. */
    method MultRight(m: Matrix)
      requires Valid()
      modifies this`matrices, this`inverseDirty
      ensures Valid()
      ensures Stack() == old(Stack())[pushLevel := Mul(old(Top()), m)]
      ensures inverseDirty
    {
      var product := Multiply(matrices[pushLevel], m);
      matrices := matrices[pushLevel := product];
      inverseDirty := true;
    }

    /**
     The inverse of the matrix on top, or failure exactly if it has none.  Afterwards `inverse` is
     what the caller gets a pointer to.
     */
    method GetInverse() returns (ok: bool)
      requires Valid()
      modifies this`inverseDirty, inverse
      ensures Valid()
      ensures ok <==> Invertible(Top())
      ensures ok ==> IsInverse(Top(), inverse[..]) && !inverseDirty
      ensures !ok ==> inverseDirty
    {
      hide IsInverse, Invertible;
      if inverseDirty {
        var top := matrices[pushLevel];
        forall k | 0 <= k < 16 {
          inverse[k] := top[k];
        }
        assert inverse[..] == top;
        ok := InvertInPlace(inverse);
        if !ok {
          return;
        }
        inverseDirty := false;
      }
      InverseWitness(Top(), inverse[..]);
      ok := true;
    }

    /** prf_state_clone */
    method Clone() returns (clone: TraversalState)
      requires Valid()
      ensures fresh(clone) && fresh(clone.inverse) && clone.Valid()
      ensures clone.Stack() == Stack() && clone.physicalLevel == physicalLevel
      ensures clone.inverseDirty == inverseDirty
    {
      clone := new TraversalState();
      clone.CopyFrom(this);
    }

    /** prf_state_copy: overwrites the levels that `original` uses, and its cache if it is good. */
    method CopyFrom(original: TraversalState)
      requires inverse.Length == 16 && original.Valid() && original != this && original.inverse != inverse
      requires |matrices| > 0
      modifies this, inverse
      ensures Valid()
      ensures Stack() == original.Stack() && physicalLevel == original.physicalLevel
      ensures inverseDirty == original.inverseDirty
    {
      hide IsInverse;
      inverseDirty := original.inverseDirty;
      for i := 0 to original.pushLevel + 1
        invariant |matrices| > 0 && i <= |matrices|
        invariant matrices[..i] == original.matrices[..i]
        invariant inverseDirty == original.inverseDirty
      {
        if i >= |matrices| {
          matrices := matrices + [Identity];
        }
        matrices := matrices[i := original.matrices[i]];
      }
      if !inverseDirty {
        forall k | 0 <= k < 16 {
          inverse[k] := original.inverse[k];
        }
        assert inverse[..] == original.inverse[..] == old(original.inverse[..]);
      }
      pushLevel := original.pushLevel;
      physicalLevel := original.physicalLevel;
      assert Top() == Stack()[pushLevel] == original.Stack()[pushLevel] == original.Top();
    }
  }

  /** The loops of prf_state_matrix_mult_right: the cells are overwritten, a copy is read. */
  method Multiply(copy: Matrix, m: Matrix) returns (product: Matrix)
    ensures product == Mul(copy, m)
  {
    var cells := new real[16](k requires 0 <= k < 16 => copy[k]);
    for i := 0 to 4
      invariant forall i': nat, j: nat :: i' < i && j < 4 ==> At(cells[..], i', j) == Dot(copy, i', Column(m, j))
    {
      for j := 0 to 4
        invariant forall i': nat, j': nat :: i' < 4 && j' < 4 && (i' < i || (i' == i && j' < j)) ==>
                    At(cells[..], i', j') == Dot(copy, i', Column(m, j'))
      {
        var cell := 0.0;
        for n := 0 to 4
          invariant cell == PartialDot(copy, i, Column(m, j), n)
        {
          cell := cell + copy[4 * i + n] * m[4 * n + j];
        }
        PartialDotIsDot(copy, i, Column(m, j));
        Set(cells, i, j, cell);
      }
    }
    Extensional(cells[..], Mul(copy, m));
    product := cells[..];
  }

  /** The first `n` products of row `i` of `m` and `v`, added up. */
  function PartialDot(m: Matrix, i: nat, v: Vec, n: nat): real
    requires i < 4 && n <= 4
  {
    if n == 0 then 0.0 else PartialDot(m, i, v, n - 1) + At(m, i, n - 1) * v[n - 1]
  }

  lemma PartialDotIsDot(m: Matrix, i: nat, v: Vec)
    requires i < 4
    ensures PartialDot(m, i, v, 4) == Dot(m, i, v)
  {
    assert PartialDot(m, i, v, 1) == At(m, i, 0) * v[0];
    assert PartialDot(m, i, v, 2) == PartialDot(m, i, v, 1) + At(m, i, 1) * v[1];
    assert PartialDot(m, i, v, 3) == PartialDot(m, i, v, 2) + At(m, i, 2) * v[2];
  }
}
