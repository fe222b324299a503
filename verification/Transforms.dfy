/**
 Normalising transforms on circular coordinates.

 A circular coordinate is a sequence of reals whose values only matter modulo 1.
 T_M ("unwrap") removes the per-step integer ambiguity, T_I ("orientation")
 removes the traversal-direction ambiguity, and T_IM is their composition.
 Each transform is given twice: as a pure specification function on `seq<real>`
 (Unwrap, Orient, NormalForm) and as the in-place array algorithm the source runs
 (AlignUnwrap, OrientationNormalize, Normalize), proved equal to it.
 */
module Transforms {

  // ---------------------------------------------------------------------------
  // Vocabulary
  // ---------------------------------------------------------------------------

  /** The jump of s between positions i and i + 1. */
  function Jump(s: seq<real>, i: nat): real
    requires i + 1 < |s|
  {
    s[i + 1] - s[i]
  }

  /** x is a whole number. */
  predicate IsInteger(x: real) {
    x.Floor as real == x
  }

  /** s with the constant a added to every element (numpy's `s + a`). */
  function Shift(s: seq<real>, a: real): (r: seq<real>)
    ensures |r| == |s|
    ensures forall i :: 0 <= i < |s| ==> r[i] == s[i] + a
  {
    seq(|s|, i requires 0 <= i < |s| => s[i] + a)
  }

  /** Every jump lies in (-0.5, 0.5]: the shape T_M promises to produce. */
  ghost predicate Aligned(s: seq<real>) {
    forall i: nat :: i + 1 < |s| ==> -0.5 < Jump(s, i) <= 0.5
  }

  /** Every jump lies in (-1.5, 1.5]: one correction per step suffices to align s. */
  ghost predicate Unwrappable(s: seq<real>) {
    forall i: nat :: i + 1 < |s| ==> -1.5 < Jump(s, i) <= 1.5
  }

  /** t equals s modulo 1, position by position. */
  ghost predicate ModOneEqual(s: seq<real>, t: seq<real>) {
    |t| == |s| && forall i :: 0 <= i < |s| ==> IsInteger(t[i] - s[i])
  }

  /** Every jump of t is the negated jump of s (t traverses the circle the other way). */
  ghost predicate Inverted(t: seq<real>, s: seq<real>) {
    |t| == |s| && forall i: nat :: i + 1 < |s| ==> Jump(t, i) == -Jump(s, i)
  }

  /** No jump of s is exactly 0.5. */
  ghost predicate NoHalfJump(s: seq<real>) {
    forall i: nat :: i + 1 < |s| ==> Jump(s, i) != 0.5
  }

  lemma IntegerSum(x: real, y: real)
    requires IsInteger(x) && IsInteger(y)
    ensures IsInteger(x + y) && IsInteger(x - y)
  {
    var m, n := x.Floor, y.Floor;
    assert x + y == (m + n) as real && ((m + n) as real).Floor == m + n;
    assert x - y == (m - n) as real && ((m - n) as real).Floor == m - n;
  }

  /** Two values of (-0.5, 0.5] that are equal modulo 1 are equal. */
  lemma AlignedRepresentativeUnique(x: real, y: real)
    requires -0.5 < x <= 0.5 && -0.5 < y <= 0.5
    requires IsInteger(x - y)
    ensures x == y
  {
    var k := (x - y).Floor;
    assert -1 < k < 1;
  }

  /** Two sequences with the same jumps differ by the constant between their first elements. */
  lemma {:induction false} SameJumpsAt(x: seq<real>, y: seq<real>, i: nat)
    requires |x| == |y| && i < |x|
    requires forall j: nat :: j + 1 < |x| ==> Jump(x, j) == Jump(y, j)
    ensures x[i] - y[i] == x[0] - y[0]
  {
    if i > 0 {
      SameJumpsAt(x, y, i - 1);
      assert Jump(x, i - 1) == Jump(y, i - 1);
    }
  }

  lemma SameJumpsShifted(x: seq<real>, y: seq<real>)
    requires |x| == |y| > 0
    requires forall j: nat :: j + 1 < |x| ==> Jump(x, j) == Jump(y, j)
    ensures x == Shift(y, x[0] - y[0])
  {
    forall i | 0 <= i < |x| ensures x[i] == Shift(y, x[0] - y[0])[i] {
      SameJumpsAt(x, y, i);
    }
  }

  // ---------------------------------------------------------------------------
  // T_M: mod-1 unwrap
  // ---------------------------------------------------------------------------

  /**
   The integer that one step of the unwrap loop adds to the suffix, given the
   jump d it sees: first "subtract 1 if d > 0.5", then, on the updated jump,
   "add 1 if it is <= -0.5". At most one of the two fires.
   */
  function Correction(d: real): (k: int)
    ensures -1 <= k <= 1
    ensures -1.5 < d <= 1.5 ==> -0.5 < d + k as real <= 0.5
    ensures -0.5 < d <= 0.5 ==> k == 0
  {
    var down := if d > 0.5 then -1 else 0;
    var up := if d + down as real <= -0.5 then 1 else 0;
    down + up
  }

  /**
   Negating the jump negates the corrected jump, except when the corrected jump
   is exactly 0.5 (its negation -0.5 lies outside (-0.5, 0.5] and is corrected again).
   */
  lemma CorrectionOdd(d: real)
    requires d + Correction(d) as real != 0.5
    ensures -d + Correction(-d) as real == -(d + Correction(d) as real)
  {
  }

  /** The integer by which T_M has moved position i once its loop is done. */
  function Offset(c: seq<real>, i: nat): int
    requires i < |c|
  {
    if i == 0 then 0 else Offset(c, i - 1) + Correction(Jump(c, i - 1))
  }

  /**
   The result of T_M: position i moved by the accumulated corrections of the
   jumps before it.
   */
  function Unwrap(c: seq<real>): (r: seq<real>)
    ensures |r| == |c|
    ensures |c| > 0 ==> r[0] == c[0]
  {
    seq(|c|, i requires 0 <= i < |c| => c[i] + Offset(c, i) as real)
  }

  /**
   T_M keeps the length and the first element, and every output element equals
   the matching input element modulo 1.
   */
  lemma UnwrapModOneEqual(c: seq<real>)
    ensures |Unwrap(c)| == |c| && (|c| > 0 ==> Unwrap(c)[0] == c[0])
    ensures ModOneEqual(c, Unwrap(c))
  {
    forall i | 0 <= i < |c| ensures IsInteger(Unwrap(c)[i] - c[i]) {
      var k := Offset(c, i);
      assert Unwrap(c)[i] - c[i] == k as real && (k as real).Floor == k;
    }
  }

  /**
   Each output jump is the input jump plus the correction of that step, so it
   differs from the input jump by -1, 0 or +1.
   */
  lemma UnwrapJump(c: seq<real>, i: nat)
    requires i + 1 < |c|
    ensures Jump(Unwrap(c), i) == Jump(c, i) + Correction(Jump(c, i)) as real
    ensures IsInteger(Jump(Unwrap(c), i) - Jump(c, i))
    ensures -1.0 <= Jump(Unwrap(c), i) - Jump(c, i) <= 1.0
  {
    var k := Correction(Jump(c, i));
    assert Offset(c, i + 1) == Offset(c, i) + k;
    assert Jump(Unwrap(c), i) - Jump(c, i) == k as real;
  }

  /** With every input jump in (-1.5, 1.5], every output jump lies in (-0.5, 0.5]. */
  lemma UnwrapAligns(c: seq<real>)
    requires Unwrappable(c)
    ensures Aligned(Unwrap(c))
  {
    forall i: nat | i + 1 < |c| ensures -0.5 < Jump(Unwrap(c), i) <= 0.5 {
      UnwrapJump(c, i);
    }
  }

  lemma {:induction false} OffsetOfAligned(c: seq<real>, i: nat)
    requires Aligned(c) && i < |c|
    ensures Offset(c, i) == 0
  {
    if i > 0 {
      OffsetOfAligned(c, i - 1);
      assert -0.5 < Jump(c, i - 1) <= 0.5;
    }
  }

  /** An input whose jumps already lie in (-0.5, 0.5] is left unchanged. */
  lemma UnwrapFixesAligned(c: seq<real>)
    requires Aligned(c)
    ensures Unwrap(c) == c
  {
    forall i | 0 <= i < |c| ensures Unwrap(c)[i] == c[i] {
      OffsetOfAligned(c, i);
    }
  }

  /** Sequences of length 0 or 1 are returned unchanged (the loop range is empty). */
  lemma UnwrapShort(c: seq<real>)
    requires |c| <= 1
    ensures Unwrap(c) == c
  {
  }

  /** Two sequences with every jump in (-0.5, 0.5], equal modulo 1 and with the same first element, agree at i. */
  lemma {:induction false} AlignedModOneAt(r: seq<real>, u: seq<real>, i: nat)
    requires ModOneEqual(u, r) && Aligned(r) && Aligned(u)
    requires i < |r| && r[0] == u[0]
    ensures r[i] == u[i]
  {
    if i > 0 {
      AlignedModOneAt(r, u, i - 1);
      var jr, ju := Jump(r, i - 1), Jump(u, i - 1);
      assert jr - ju == r[i] - u[i];
      AlignedRepresentativeUnique(jr, ju);
    }
  }

  /**
   The defining property stated for T_M determines its result: under the jump
   bound, the only sequence that keeps the first element, equals the input
   modulo 1 and has every jump in (-0.5, 0.5] is Unwrap(c).
   */
  lemma UnwrapUnique(c: seq<real>, r: seq<real>)
    requires Unwrappable(c)
    requires ModOneEqual(c, r) && Aligned(r)
    requires |c| > 0 ==> r[0] == c[0]
    ensures r == Unwrap(c)
  {
    var u := Unwrap(c);
    UnwrapAligns(c);
    UnwrapModOneEqual(c);
    forall i | 0 <= i < |c| ensures IsInteger(r[i] - u[i]) {
      IntegerSum(r[i] - c[i], u[i] - c[i]);
      assert r[i] - u[i] == (r[i] - c[i]) - (u[i] - c[i]);
    }
    forall i | 0 <= i < |c| ensures r[i] == u[i] {
      AlignedModOneAt(r, u, i);
    }
  }

  lemma {:induction false} OffsetShift(c: seq<real>, a: real, i: nat)
    requires i < |c|
    ensures Offset(Shift(c, a), i) == Offset(c, i)
  {
    if i > 0 {
      OffsetShift(c, a, i - 1);
      assert Jump(Shift(c, a), i - 1) == Jump(c, i - 1);
    }
  }

  /** Adding a constant to the input adds the same constant to the output. */
  lemma UnwrapShift(c: seq<real>, a: real)
    ensures Unwrap(Shift(c, a)) == Shift(Unwrap(c), a)
  {
    forall i | 0 <= i < |c| ensures Unwrap(Shift(c, a))[i] == Shift(Unwrap(c), a)[i] {
      OffsetShift(c, a, i);
    }
  }

  /**
   Mod-1 invariance: inputs equal modulo 1, both within the jump bound, unwrap
   to the same sequence up to the whole-number difference of their first elements
   (so to the same sequence when the first elements agree).
   */
  lemma UnwrapModOne(c: seq<real>, c': seq<real>)
    requires ModOneEqual(c, c') && |c| > 0
    requires Unwrappable(c) && Unwrappable(c')
    ensures IsInteger(c'[0] - c[0])
    ensures Unwrap(c') == Shift(Unwrap(c), c'[0] - c[0])
  {
    var a := c'[0] - c[0];
    var u := Unwrap(c);
    var r := Shift(u, a);
    UnwrapAligns(c);
    UnwrapModOneEqual(c);
    forall i: nat | i + 1 < |r| ensures -0.5 < Jump(r, i) <= 0.5 {
      assert Jump(r, i) == Jump(u, i);
    }
    forall i | 0 <= i < |c'| ensures IsInteger(r[i] - c'[i]) {
      IntegerSum(u[i] - c[i], c'[i] - c[i]);
      IntegerSum((u[i] - c[i]) - (c'[i] - c[i]), a);
      assert r[i] - c'[i] == ((u[i] - c[i]) - (c'[i] - c[i])) + a;
    }
    UnwrapUnique(c', r);
  }

  /**
   Unwrapping an inverted input inverts the unwrapped output, provided no
   unwrapped jump is exactly 0.5.
   */
  lemma UnwrapInverted(c: seq<real>, c': seq<real>)
    requires Inverted(c', c)
    requires NoHalfJump(Unwrap(c))
    ensures Inverted(Unwrap(c'), Unwrap(c))
  {
    forall i: nat | i + 1 < |c| ensures Jump(Unwrap(c'), i) == -Jump(Unwrap(c), i) {
      UnwrapJump(c, i);
      UnwrapJump(c', i);
      assert Jump(c', i) == -Jump(c, i);
      CorrectionOdd(Jump(c, i));
    }
  }

  /** `T_M([0.9, 0.1])`: the downward wrap of -0.8 is corrected by +1. */
  lemma UnwrapExampleDown()
    ensures Unwrap([0.9, 0.1]) == [0.9, 1.1]
  {
    assert Offset([0.9, 0.1], 1) == 1;
  }

  /** `T_M([0.0, 0.3, 0.6, 0.9, 0.2])`: only the last jump (-0.7) is corrected, by +1. */
  lemma UnwrapExampleLast()
    ensures Unwrap([0.0, 0.3, 0.6, 0.9, 0.2]) == [0.0, 0.3, 0.6, 0.9, 1.2]
  {
    var c := [0.0, 0.3, 0.6, 0.9, 0.2];
    assert Offset(c, 1) == 0;
    assert Offset(c, 2) == 0;
    assert Offset(c, 3) == 0;
    assert Offset(c, 4) == 1;
  }

  /** Without the jump bound the promised bound fails: one correction cannot absorb a jump of 2. */
  lemma UnwrapLargeJump()
    ensures Unwrap([0.0, 2.0]) == [0.0, 1.0]
    ensures !Aligned(Unwrap([0.0, 2.0]))
  {
    assert Offset([0.0, 2.0], 1) == -1;
    assert Jump([0.0, 1.0], 0) == 1.0;
  }

  /** s with delta added to every element from position `from` on. */
  function ShiftFrom(s: seq<real>, from: nat, delta: real): (r: seq<real>)
    ensures |r| == |s|
  {
    seq(|s|, j requires 0 <= j < |s| => if j < from then s[j] else s[j] + delta)
  }

  /**
   The working copy of T_M after the steps for jumps 0 .. i-1: every position
   up to i carries its final offset, and every later position the offset reached at i.
   */
  function UnwrapPrefix(c: seq<real>, i: nat): (r: seq<real>)
    requires i < |c|
    ensures |r| == |c|
  {
    seq(|c|, j requires 0 <= j < |c| => c[j] + Offset(c, if j <= i then j else i) as real)
  }

  /** One step of the loop moves the suffix after i by the correction of jump i. */
  lemma UnwrapPrefixStep(c: seq<real>, i: nat)
    requires i + 1 < |c|
    ensures ShiftFrom(UnwrapPrefix(c, i), i + 1, Correction(Jump(c, i)) as real) == UnwrapPrefix(c, i + 1)
  {
    var k := Correction(Jump(c, i));
    assert Offset(c, i + 1) == Offset(c, i) + k;
  }

  lemma UnwrapPrefixEnds(c: seq<real>)
    requires |c| > 0
    ensures UnwrapPrefix(c, 0) == c
    ensures UnwrapPrefix(c, |c| - 1) == Unwrap(c)
  {
    assert Offset(c, 0) == 0;
    forall j | 0 <= j < |c| ensures UnwrapPrefix(c, 0)[j] == c[j] {
    }
    forall j | 0 <= j < |c| ensures UnwrapPrefix(c, |c| - 1)[j] == Unwrap(c)[j] {
    }
  }

  /**
   Shifting the suffix from position `from` changes exactly one jump, the one
   into `from`; the jumps before it (and after it) stay as they were.
   */
  lemma ShiftFromJumps(s: seq<real>, from: nat, delta: real)
    requires 0 < from < |s|
    ensures Jump(ShiftFrom(s, from, delta), from - 1) == Jump(s, from - 1) + delta
    ensures forall i: nat :: i + 1 < |s| && i != from - 1 ==> Jump(ShiftFrom(s, from, delta), i) == Jump(s, i)
  {
  }

  lemma ShiftFromTwice(s: seq<real>, from: nat, d1: real, d2: real)
    ensures ShiftFrom(ShiftFrom(s, from, d1), from, d2) == ShiftFrom(s, from, d1 + d2)
  {
  }

  /** Adds delta to every element from position `from` on (numpy's `cc[from:] = cc[from:] + delta`). */
  method ShiftSuffix(a: array<real>, from: nat, delta: real)
    requires from <= a.Length
    modifies a
    ensures a[..] == ShiftFrom(old(a[..]), from, delta)
  {
    var j := from;
    while j < a.Length
      invariant from <= j <= a.Length
      invariant forall k :: 0 <= k < j ==> a[k] == ShiftFrom(old(a[..]), from, delta)[k]
      invariant forall k :: j <= k < a.Length ==> a[k] == old(a[k])
    {
      a[j] := a[j] + delta;
      j := j + 1;
    }
  }

  /**
   T_M as the source runs it: copy the input, then scan left to right and, when
   a jump exceeds 0.5 (or is at most -0.5), shift the whole remaining suffix by
   -1 (or +1). The input array is not modified.
   */
  method AlignUnwrap(c: array<real>) returns (cc: array<real>)
    ensures fresh(cc)
    ensures cc[..] == Unwrap(c[..])
  {
    ghost var s := c[..];
    cc := new real[c.Length](k requires 0 <= k < c.Length reads c => c[k]);
    var n := cc.Length;
    if n > 0 {
      UnwrapPrefixEnds(s);
    }
    var i := 0;
    while i < n - 1
      invariant 0 <= i && (n > 0 ==> i < n)
      invariant n > 0 ==> cc[..] == UnwrapPrefix(s, i)
      invariant n == 0 ==> cc[..] == s
    {
      ghost var before := cc[..];
      ghost var delta := 0.0;
      assert cc[..] == ShiftFrom(before, i + 1, delta);
      if cc[i + 1] - cc[i] > 0.5 {
        ShiftSuffix(cc, i + 1, -1.0);
        delta := -1.0;
      }
      if cc[i + 1] - cc[i] <= -0.5 {
        ShiftFromTwice(before, i + 1, delta, 1.0);
        ShiftSuffix(cc, i + 1, 1.0);
        delta := delta + 1.0;
      }
      assert before[i + 1] - before[i] == Jump(s, i);
      assert delta == Correction(Jump(s, i)) as real;
      UnwrapPrefixStep(s, i);
      i := i + 1;
    }
    assert n > 0 ==> i == n - 1;
  }

  // ---------------------------------------------------------------------------
  // T_I: orientation normalisation
  // ---------------------------------------------------------------------------

  /**
   The result of T_I in closed form: the input itself when its last value is
   not below its first, otherwise its reflection about the first value.
   */
  function Orient(c: seq<real>): (r: seq<real>)
    requires |c| > 0
    ensures |r| == |c| && r[0] == c[0]
    ensures r[0] <= r[|r| - 1]
  {
    if c[0] <= c[|c| - 1] then c
    else seq(|c|, i requires 0 <= i < |c| => 2.0 * c[0] - c[i])
  }

  /**
   The two branches of T_I: unchanged when c[0] <= c[last]; otherwise the first
   value is kept, every jump is negated, and the net change becomes strictly positive.
   */
  lemma OrientBranches(c: seq<real>)
    requires |c| > 0
    ensures c[0] <= c[|c| - 1] ==> Orient(c) == c
    ensures c[0] > c[|c| - 1] ==> Inverted(Orient(c), c) && Orient(c)[0] < Orient(c)[|c| - 1]
  {
    if c[0] > c[|c| - 1] {
      var r := Orient(c);
      forall i: nat | i + 1 < |c| ensures Jump(r, i) == -Jump(c, i) {
        assert r[i] == 2.0 * c[0] - c[i] && r[i + 1] == 2.0 * c[0] - c[i + 1];
      }
    }
  }

  /** T_I is idempotent. */
  lemma OrientIdempotent(c: seq<real>)
    requires |c| > 0
    ensures Orient(Orient(c)) == Orient(c)
  {
  }

  /** Adding a constant to the input adds the same constant to the output. */
  lemma OrientShift(c: seq<real>, a: real)
    requires |c| > 0
    ensures Orient(Shift(c, a)) == Shift(Orient(c), a)
  {
    if c[0] > c[|c| - 1] {
      forall i | 0 <= i < |c| ensures Orient(Shift(c, a))[i] == Shift(Orient(c), a)[i] {
      }
    }
  }

  /**
   T_I as the source runs it: return a copy when c[0] <= c[last]; otherwise copy
   and rebuild each value from the previous output value plus the negated jump.
   */
  method OrientationNormalize(c: array<real>) returns (cc: array<real>)
    requires c.Length > 0
    ensures fresh(cc)
    ensures cc[..] == Orient(c[..])
  {
    var n := c.Length;
    cc := new real[n](k requires 0 <= k < n reads c => c[k]);
    if c[0] <= c[n - 1] {
      return;
    }
    var i := 0;
    while i < n - 1
      invariant 0 <= i < n
      invariant forall j :: 0 <= j <= i ==> cc[j] == 2.0 * c[0] - c[j]
      invariant forall j :: i < j < n ==> cc[j] == c[j]
    {
      cc[i + 1] := cc[i] + c[i] - c[i + 1];
      i := i + 1;
    }
  }

  /** `T_I([5.0, 3.0, 1.0])`: each decrement of 2 becomes an increment of 2. */
  lemma OrientExample()
    ensures Orient([5.0, 3.0, 1.0]) == [5.0, 7.0, 9.0]
  {
  }

  // ---------------------------------------------------------------------------
  // T_IM: the composition
  // ---------------------------------------------------------------------------

  /** T_IM = T_I after T_M: keeps the first value and ends no lower than it starts. */
  function NormalForm(c: seq<real>): (r: seq<real>)
    requires |c| > 0
    ensures |r| == |c| && r[0] == c[0]
    ensures r[0] <= r[|r| - 1]
  {
    Orient(Unwrap(c))
  }

  /** T_IM as the source runs it: T_M then T_I, each on a fresh copy. */
  method Normalize(c: array<real>) returns (cc: array<real>)
    requires c.Length > 0
    ensures fresh(cc)
    ensures cc[..] == NormalForm(c[..])
  {
    var m := AlignUnwrap(c);
    cc := OrientationNormalize(m);
  }

  /** Translation equivariance: T_IM(c + a) == T_IM(c) + a. */
  lemma NormalFormShift(c: seq<real>, a: real)
    requires |c| > 0
    ensures NormalForm(Shift(c, a)) == Shift(NormalForm(c), a)
  {
    UnwrapShift(c, a);
    OrientShift(Unwrap(c), a);
  }

  /** Under the jump bound every output jump of T_IM has magnitude at most 0.5. */
  lemma NormalFormJumpBound(c: seq<real>)
    requires |c| > 0 && Unwrappable(c)
    ensures forall i: nat :: i + 1 < |c| ==> -0.5 <= Jump(NormalForm(c), i) <= 0.5
  {
    var u := Unwrap(c);
    UnwrapAligns(c);
    OrientBranches(u);
  }

  /**
   Mod-1 invariance of T_IM: inputs equal modulo 1 and within the jump bound
   normalise to the same sequence, up to the whole-number difference of their
   first elements.
   */
  lemma NormalFormModOne(c: seq<real>, c': seq<real>)
    requires ModOneEqual(c, c') && |c| > 0
    requires Unwrappable(c) && Unwrappable(c')
    ensures IsInteger(c'[0] - c[0])
    ensures NormalForm(c') == Shift(NormalForm(c), c'[0] - c[0])
  {
    UnwrapModOne(c, c');
    OrientShift(Unwrap(c), c'[0] - c[0]);
  }

  /**
   Inversion invariance of T_IM: an inverted input normalises to the same
   sequence up to the difference of the first elements, provided the unwrapped
   input has a nonzero net change and no jump of exactly 0.5.
   */
  lemma NormalFormInverted(c: seq<real>, c': seq<real>)
    requires |c| > 0 && Inverted(c', c)
    requires NoHalfJump(Unwrap(c))
    requires Unwrap(c)[0] != Unwrap(c)[|c| - 1]
    ensures NormalForm(c') == Shift(NormalForm(c), c'[0] - c[0])
  {
    var u, u' := Unwrap(c), Unwrap(c');
    var n := |c|;
    UnwrapInverted(c, c');
    // u' is the reflection of u about its first value, moved to start at c'[0]
    var reflected := seq(n, i requires 0 <= i < n => 2.0 * u[0] - u[i]);
    forall j: nat | j + 1 < n ensures Jump(u', j) == Jump(reflected, j) {
    }
    SameJumpsShifted(u', reflected);
    var a := c'[0] - c[0];
    assert u'[n - 1] == 2.0 * u[0] - u[n - 1] + a;
    forall i | 0 <= i < n ensures Orient(u')[i] == Shift(Orient(u), a)[i] {
      assert u'[i] == 2.0 * u[0] - u[i] + a;
    }
  }

  /** A zero net change defeats inversion invariance: both inputs are already oriented. */
  lemma NormalFormInvertedZeroNet()
    ensures Inverted([0.0, -0.2, 0.0], [0.0, 0.2, 0.0])
    ensures NormalForm([0.0, -0.2, 0.0]) != NormalForm([0.0, 0.2, 0.0])
  {
    assert Offset([0.0, 0.2, 0.0], 2) == 0;
    assert Offset([0.0, -0.2, 0.0], 2) == 0;
    assert NormalForm([0.0, 0.2, 0.0])[1] == 0.2;
  }

  /** An unwrapped jump of exactly 0.5 defeats inversion invariance: its negation is corrected to +0.5. */
  lemma NormalFormInvertedHalfJump()
    ensures Inverted([0.0, -0.5, -0.6], [0.0, 0.5, 0.6])
    ensures NormalForm([0.0, 0.5, 0.6]) == [0.0, 0.5, 0.6]
    ensures NormalForm([0.0, -0.5, -0.6]) == [0.0, 0.5, 0.4]
  {
    assert Offset([0.0, 0.5, 0.6], 2) == 0;
    assert Offset([0.0, -0.5, -0.6], 1) == 1;
    assert Offset([0.0, -0.5, -0.6], 2) == 1;
  }

  /**
   T_IM is idempotent under the jump bound, unless T_I had to flip a sequence
   with an unwrapped jump of exactly 0.5.
   */
  lemma NormalFormIdempotent(c: seq<real>)
    requires |c| > 0 && Unwrappable(c)
    requires Unwrap(c)[0] > Unwrap(c)[|c| - 1] ==> NoHalfJump(Unwrap(c))
    ensures NormalForm(NormalForm(c)) == NormalForm(c)
  {
    var u := Unwrap(c);
    UnwrapAligns(c);
    OrientBranches(u);
    var v := Orient(u);
    forall i: nat | i + 1 < |v| ensures -0.5 < Jump(v, i) <= 0.5 {
    }
    UnwrapFixesAligned(v);
  }

  /** Flipping a sequence with an unwrapped jump of 0.5 is not undone by a second T_IM. */
  lemma NormalFormNotIdempotentAtHalfJump()
    ensures NormalForm([0.0, 0.5, 0.1, -0.3]) == [0.0, -0.5, -0.1, 0.3]
    ensures NormalForm([0.0, -0.5, -0.1, 0.3]) == [0.0, 0.5, 0.9, 1.3]
  {
    var c := [0.0, 0.5, 0.1, -0.3];
    assert Offset(c, 1) == 0 && Offset(c, 2) == 0 && Offset(c, 3) == 0;
    var v := [0.0, -0.5, -0.1, 0.3];
    assert Offset(v, 1) == 1 && Offset(v, 2) == 1 && Offset(v, 3) == 1;
  }

  /**
   Without the jump bound T_IM is not idempotent: a jump of 2 is only brought
   down to 1, and a second pass brings it down to 0.
   */
  lemma NormalFormNotIdempotentLargeJump()
    ensures NormalForm([0.0, 2.0]) == [0.0, 1.0]
    ensures NormalForm([0.0, 1.0]) == [0.0, 0.0]
  {
    assert Offset([0.0, 2.0], 1) == -1;
    assert Offset([0.0, 1.0], 1) == -1;
  }

  /**
   Without the jump bound T_M and T_IM are not mod-1 invariant: [0.0, 2.0]
   equals [0.0, 0.0] modulo 1 but normalises to [0.0, 1.0].
   */
  lemma NormalFormModOneNeedsJumpBound()
    ensures ModOneEqual([0.0, 0.0], [0.0, 2.0])
    ensures Unwrap([0.0, 2.0]) != Unwrap([0.0, 0.0])
    ensures NormalForm([0.0, 2.0]) != NormalForm([0.0, 0.0])
  {
    assert (2.0).Floor == 2 && (0.0).Floor == 0;
    assert Offset([0.0, 2.0], 1) == -1;
    assert Offset([0.0, 0.0], 1) == 0;
    assert Unwrap([0.0, 2.0])[1] == 1.0 && Unwrap([0.0, 0.0])[1] == 0.0;
  }
}
