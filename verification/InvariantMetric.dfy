/**
 The invariant metric Phi(d)(c1, c2) = T_L(d)(T_IM(c1), T_IM(c2)).

 The translation wrapper T_L(d) is a numeric minimisation over additive shifts
 and is not modelled; its result enters as the metric `wrapped`. Properties
 that need nothing of the metric are stated for any `wrapped`; those that rely
 on T_L name the one property of it they use, ShiftInsensitive.
 */
module InvariantMetric {
  import opened Transforms

  /** A distance between two sequences, supplied by the caller. */
  type Metric = (seq<real>, seq<real>) -> real

  /** m does not change when either argument is moved by a constant: what T_L is meant to provide. */
  ghost predicate ShiftInsensitive(m: Metric) {
    forall x, y, a, b :: m(Shift(x, a), Shift(y, b)) == m(x, y)
  }

  /** m puts every sequence at distance 0 from itself. */
  ghost predicate ZeroOnDiagonal(m: Metric) {
    forall x :: m(x, x) == 0.0
  }

  /**
   Phi with the wrapped metric given: the metric applied to the T_IM normal
   forms. Inputs already in normal form reach the wrapped metric unchanged.
   */
  function Phi(wrapped: Metric, c1: seq<real>, c2: seq<real>): (r: real)
    requires |c1| > 0 && |c2| > 0
    ensures NormalForm(c1) == c1 && NormalForm(c2) == c2 ==> r == wrapped(c1, c2)
  {
    wrapped(NormalForm(c1), NormalForm(c2))
  }

  lemma ShiftByZero(s: seq<real>)
    ensures Shift(s, 0.0) == s
  {
  }

  /**
   Mod-1 invariance of any metric applied after T_IM: inputs equal modulo 1 to
   the originals, with the same first elements and within the jump bound, are
   at the same distance.
   */
  lemma NormalizedModOne(m: Metric, c1: seq<real>, c1': seq<real>, c2: seq<real>, c2': seq<real>)
    requires |c1| > 0 && |c2| > 0
    requires ModOneEqual(c1, c1') && c1'[0] == c1[0]
    requires ModOneEqual(c2, c2') && c2'[0] == c2[0]
    requires Unwrappable(c1) && Unwrappable(c1') && Unwrappable(c2) && Unwrappable(c2')
    ensures Phi(m, c1', c2') == Phi(m, c1, c2)
  {
    NormalFormModOne(c1, c1');
    NormalFormModOne(c2, c2');
    ShiftByZero(NormalForm(c1));
    ShiftByZero(NormalForm(c2));
  }

  /**
   Inversion invariance of any metric that is zero on the diagonal, applied
   after T_IM: an input and its inversion from the same first value are at
   distance 0, given a nonzero unwrapped net change and no unwrapped jump of 0.5.
   */
  lemma NormalizedInversion(m: Metric, c: seq<real>, c': seq<real>)
    requires ZeroOnDiagonal(m)
    requires |c| > 0 && Inverted(c', c) && c'[0] == c[0]
    requires NoHalfJump(Unwrap(c)) && Unwrap(c)[0] != Unwrap(c)[|c| - 1]
    ensures Phi(m, c, c') == 0.0
  {
    NormalFormInverted(c, c');
    ShiftByZero(NormalForm(c));
  }

  /** Translation invariance of Phi: Phi(d)(c1 + a, c2 + b) == Phi(d)(c1, c2). */
  lemma PhiTranslation(m: Metric, c1: seq<real>, c2: seq<real>, a: real, b: real)
    requires ShiftInsensitive(m)
    requires |c1| > 0 && |c2| > 0
    ensures Phi(m, Shift(c1, a), Shift(c2, b)) == Phi(m, c1, c2)
  {
    NormalFormShift(c1, a);
    NormalFormShift(c2, b);
    assert m(Shift(NormalForm(c1), a), Shift(NormalForm(c2), b)) == m(NormalForm(c1), NormalForm(c2));
  }

  /** Mod-1 invariance of Phi: inputs equal modulo 1 (within the jump bound) are at the same distance. */
  lemma PhiModOne(m: Metric, c1: seq<real>, c1': seq<real>, c2: seq<real>, c2': seq<real>)
    requires ShiftInsensitive(m)
    requires |c1| > 0 && |c2| > 0
    requires ModOneEqual(c1, c1') && ModOneEqual(c2, c2')
    requires Unwrappable(c1) && Unwrappable(c1') && Unwrappable(c2) && Unwrappable(c2')
    ensures Phi(m, c1', c2') == Phi(m, c1, c2)
  {
    NormalFormModOne(c1, c1');
    NormalFormModOne(c2, c2');
    var a, b := c1'[0] - c1[0], c2'[0] - c2[0];
    assert m(Shift(NormalForm(c1), a), Shift(NormalForm(c2), b)) == m(NormalForm(c1), NormalForm(c2));
  }

  /**
   Inversion invariance of Phi: an input and any inversion of it are at
   distance 0, given a nonzero unwrapped net change and no unwrapped jump of 0.5.
   */
  lemma PhiInversion(m: Metric, c: seq<real>, c': seq<real>)
    requires ShiftInsensitive(m) && ZeroOnDiagonal(m)
    requires |c| > 0 && Inverted(c', c)
    requires NoHalfJump(Unwrap(c)) && Unwrap(c)[0] != Unwrap(c)[|c| - 1]
    ensures Phi(m, c, c') == 0.0
  {
    NormalFormInverted(c, c');
    var x := NormalForm(c);
    ShiftByZero(x);
    assert m(Shift(x, 0.0), Shift(x, c'[0] - c[0])) == m(x, x);
  }

  /**
   The distance between the first values of two sequences: a non-negative,
   symmetric metric that T_IM alone does not make mod-1 invariant.
   */
  function FirstGap(x: seq<real>, y: seq<real>): real {
    if |x| > 0 && |y| > 0 then (if x[0] >= y[0] then x[0] - y[0] else y[0] - x[0]) else 0.0
  }

  /**
   Without the translation wrapper, moving an input by a whole number changes
   the distance: [1.2] equals [0.2] modulo 1, yet the two are at different
   distances from [0.2] after T_IM.
   */
  lemma NormalizedModOneNeedsSameStart()
    ensures ModOneEqual([0.2], [1.2])
    ensures Phi(FirstGap, [1.2], [0.2]) != Phi(FirstGap, [0.2], [0.2])
  {
    assert (1.0).Floor == 1;
    assert NormalForm([1.2]) == [1.2] && NormalForm([0.2]) == [0.2];
  }
}
