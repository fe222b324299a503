# Circular-coordinate normalisation, modelled in Dafny

This project models the transform pipeline that builds an invariant distance between two
circular coordinates. A circular coordinate is a real-valued time series whose values
matter only modulo 1. Three transforms normalise such a sequence:

- **T_M**, the mod-1 unwrap. It copies the sequence and scans it left to right. Whenever a
  jump exceeds 0.5 it subtracts 1 from the whole remaining suffix. Whenever a jump is at
  most -0.5 it adds 1 to that suffix.
- **T_I**, the orientation normalisation. It leaves the sequence unchanged when its last
  value is not below its first. Otherwise it rebuilds the sequence from the first value
  with every jump negated.
- **T_IM**, the composition of the two (T_I after T_M).

**Phi** applies the translation wrapper T_L(d) of a base metric d to the T_IM normal forms
of its two inputs.

`Transforms.dfy` (module `Transforms`) gives each transform twice:

- a pure specification function on `seq<real>`: `Unwrap`, `Orient` and `NormalForm`;
- the array algorithm the source runs: `AlignUnwrap`, `OrientationNormalize` and
  `Normalize`. Each copies its input into a fresh array and updates that array in place.
  Each is proved equal to its specification function.

T_M's suffix-shifting loop is specified by a running integer offset. `Offset(c, i)` is the
sum of the corrections of the jumps before position i. `UnwrapPrefix(c, i)` is the working
array after i steps.

`InvariantMetric.dfy` (module `InvariantMetric`) defines `Phi(wrapped, c1, c2)` as
`wrapped(NormalForm(c1), NormalForm(c2))`. Here `wrapped` stands for the already wrapped
metric T_L(d). It is not modelled, and the one property of it that the translation
claims use is named `ShiftInsensitive`.

Where the comments and the code disagree, the model follows the code:

- The comment at Transforms.py:37 keeps the input when `c[n-1] > c[0]`. The code at
  Transforms.py:44 keeps it when `c[0] <= c[-1]`, so an input with equal ends is also
  left unchanged (`OrientBranches`).
- The comments at Transforms.py:18-20 promise every output jump in (-0.5, 0.5]. The code
  applies at most one correction of ±1 per step. The bound therefore holds only when every
  input jump lies in (-1.5, 1.5] (`Unwrappable`); `UnwrapLargeJump` shows a jump of 2
  left at 1.
- The inversion claims at Transforms.py:15, 71 and 84 need two side conditions. The
  unwrapped input must have a nonzero net change (`NormalFormInvertedZeroNet`). No
  unwrapped jump may equal exactly 0.5, because its negation -0.5 is corrected back to
  +0.5 (`NormalFormInvertedHalfJump`).
- The claims at Transforms.py:83-84, that any metric applied after T_IM is mod-1 and
  inversion invariant, hold only for inputs with the same first values. Inputs that differ
  by a whole number at the start stay apart by that number until T_L removes it
  (`NormalizedModOneNeedsSameStart`).

## Model

| member | source | states |
|---|---|---|
| `Transforms.Correction` | Transforms.py:28-31 | The integer one loop step adds to the suffix is -1, 0 or +1. It brings any jump in (-1.5, 1.5] into (-0.5, 0.5]. It is 0 when the jump already lies in (-0.5, 0.5]. |
| `Transforms.CorrectionOdd` | Transforms.py:28-31 | Negating a jump negates the corrected jump, unless the corrected jump is exactly 0.5. |
| `Transforms.Unwrap` | Transforms.py:25-32 | T_M's result has the input's length and keeps the first element. |
| `Transforms.UnwrapModOneEqual` | Transforms.py:19-20 | T_M keeps length and first element. Every output element differs from the matching input element by a whole number. |
| `Transforms.UnwrapJump` | Transforms.py:27-31 | Each output jump is the input jump plus that step's correction. It differs from the input jump by a whole number in [-1, 1]. |
| `Transforms.UnwrapAligns` | Transforms.py:18-20 | When every input jump lies in (-1.5, 1.5], every output jump lies in (-0.5, 0.5]. |
| `Transforms.UnwrapFixesAligned` | Transforms.py:27-31 | An input whose jumps already lie in (-0.5, 0.5] is a fixed point of T_M. |
| `Transforms.UnwrapShort` | Transforms.py:27 | Inputs of length 0 or 1 come back unchanged. |
| `Transforms.UnwrapUnique` | Transforms.py:18-20 | Under the jump bound, exactly one sequence keeps the first element, equals the input modulo 1 and has every jump in (-0.5, 0.5]. That sequence is T_M's result. |
| `Transforms.UnwrapShift` | Transforms.py:27-31 | Adding a constant to the input adds the same constant to T_M's output. |
| `Transforms.UnwrapModOne` | Transforms.py:14-20 | Two inputs within the jump bound that are equal modulo 1 unwrap to the same sequence, up to the whole-number difference of their first elements. |
| `Transforms.UnwrapInverted` | Transforms.py:27-31 | Unwrapping an inverted input gives the inversion of the unwrapped input, when no unwrapped jump is 0.5. |
| `Transforms.UnwrapExampleDown` | Transforms.py:25-32 | `[0.9, 0.1]` unwraps to `[0.9, 1.1]`. |
| `Transforms.UnwrapExampleLast` | Transforms.py:25-32 | `[0.0, 0.3, 0.6, 0.9, 0.2]` unwraps to `[0.0, 0.3, 0.6, 0.9, 1.2]`. |
| `Transforms.UnwrapLargeJump` | Transforms.py:28-31 | `[0.0, 2.0]` unwraps to `[0.0, 1.0]`, which is not aligned: one correction per step is not enough. |
| `Transforms.UnwrapPrefixStep` | Transforms.py:27-31 | One loop step moves the suffix after position i by the correction of jump i. That turns the working copy after i steps into the working copy after i + 1 steps. |
| `Transforms.ShiftFromJumps` | Transforms.py:29-31 | Shifting the suffix from position f changes only the jump into f. No earlier jump changes. |
| `Transforms.ShiftSuffix` | Transforms.py:29-31 | The array afterwards is the old array with delta added from position `from` on. |
| `Transforms.AlignUnwrap` | Transforms.py:25-32 | The in-place loop returns a fresh array equal to `Unwrap` of the input. |
| `Transforms.Orient` | Transforms.py:43-50 | T_I keeps the length and the first element. Its output never ends below its start. |
| `Transforms.OrientBranches` | Transforms.py:35-50 | When `c[0] <= c[last]` the output is the input. Otherwise every jump is negated and the output ends strictly above its start. |
| `Transforms.OrientIdempotent` | Transforms.py:43-50 | Applying T_I twice gives the same result as applying it once. |
| `Transforms.OrientShift` | Transforms.py:43-50 | Adding a constant to the input adds the same constant to T_I's output. |
| `Transforms.OrientationNormalize` | Transforms.py:43-50 | The copy-and-rebuild loop returns a fresh array equal to `Orient` of the input. |
| `Transforms.OrientExample` | Transforms.py:43-50 | `[5.0, 3.0, 1.0]` becomes `[5.0, 7.0, 9.0]`. |
| `Transforms.NormalForm` | Transforms.py:76-77 | T_IM keeps the length and the first element. Its output never ends below its start. |
| `Transforms.Normalize` | Transforms.py:76-77 | T_M followed by T_I on arrays returns a fresh array equal to `NormalForm` of the input. |
| `Transforms.NormalFormShift` | Transforms.py:76-77 | T_IM(c + a) equals T_IM(c) + a. |
| `Transforms.NormalFormJumpBound` | Transforms.py:76-77 | Under the jump bound, every output jump of T_IM has magnitude at most 0.5. |
| `Transforms.NormalFormModOne` | Transforms.py:83 | Two inputs within the jump bound that are equal modulo 1 normalise alike, up to the whole-number difference of their first elements. |
| `Transforms.NormalFormInverted` | Transforms.py:84 | An inverted input normalises to T_IM(c) moved by the difference of the first elements. This needs a nonzero unwrapped net change and no unwrapped jump of 0.5. |
| `Transforms.NormalFormInvertedZeroNet` | Transforms.py:84 | With a zero net change, an input and its inversion normalise differently. |
| `Transforms.NormalFormInvertedHalfJump` | Transforms.py:84 | With an unwrapped jump of 0.5, an input and its inversion normalise differently. |
| `Transforms.NormalFormIdempotent` | Transforms.py:76-77 | Under the jump bound, T_IM is idempotent. The exception is when T_I flipped a sequence that has an unwrapped jump of 0.5. |
| `Transforms.NormalFormNotIdempotentLargeJump` | Transforms.py:76-77 | `[0.0, 2.0]` normalises to `[0.0, 1.0]`, which normalises to `[0.0, 0.0]`. |
| `Transforms.NormalFormModOneNeedsJumpBound` | Transforms.py:83 | `[0.0, 2.0]` equals `[0.0, 0.0]` modulo 1, yet T_M and T_IM give different results for the two. |
| `Transforms.NormalFormNotIdempotentAtHalfJump` | Transforms.py:76-77 | `[0.0, 0.5, 0.1, -0.3]` normalises to `[0.0, -0.5, -0.1, 0.3]`, which normalises to `[0.0, 0.5, 0.9, 1.3]`. |
| `InvariantMetric.Phi` | Transforms.py:79-80 | Phi(d)(c1, c2) is the wrapped metric T_L(d), given as a parameter, applied to the normal forms of two non-empty inputs. Inputs already in normal form reach the wrapped metric unchanged. |
| `InvariantMetric.NormalizedModOne` | Transforms.py:83 | For any metric applied after T_IM: inputs equal modulo 1 to the originals, with the same first values and within the jump bound, are at the same distance. |
| `InvariantMetric.NormalizedInversion` | Transforms.py:84 | For any metric that is zero on the diagonal, applied after T_IM: an input and its inversion from the same first value are at distance 0. The two inversion side conditions apply. |
| `InvariantMetric.NormalizedModOneNeedsSameStart` | Transforms.py:83 | `[1.2]` equals `[0.2]` modulo 1, yet after T_IM the absolute difference of the first values puts the two at different distances from `[0.2]`. |
| `InvariantMetric.PhiTranslation` | Transforms.py:71 | With a shift-insensitive wrapped metric, Phi(c1 + a, c2 + b) equals Phi(c1, c2). |
| `InvariantMetric.PhiModOne` | Transforms.py:71 | With a shift-insensitive wrapped metric, inputs equal modulo 1 and within the jump bound are at the same distance. |
| `InvariantMetric.PhiInversion` | Transforms.py:71 | With a shift-insensitive wrapped metric that is zero on the diagonal, an input and any inversion of it are at distance 0. The two inversion side conditions apply. |

## Left out

- T_L (Transforms.py:63-64) is not modelled. It calls `scipy.optimize.minimize_scalar`, a foreign floating-point minimiser. It returns the minimiser's result object, not a distance. It does not enforce the `[min c1 - min c2, max c1 - max c2]` bounds that its comment describes. Phi (Transforms.py:79-80) is modelled with the wrapped metric T_L(d) as a parameter.
- InvariantMetric.PhiTranslation: assumes the wrapped metric is `ShiftInsensitive` instead of deriving it from T_L. An exact minimisation over all shifts of the second argument gives this when d itself is unchanged by moving both arguments by the same constant.
- InvariantMetric.PhiModOne: relies on `ShiftInsensitive` in the same way, and needs the jump bound (see UnwrapAligns). Without it T_IM itself is not mod-1 invariant (NormalFormModOneNeedsJumpBound).
- InvariantMetric.PhiInversion: relies on `ShiftInsensitive` in the same way, and needs the two inversion side conditions.
- Transforms.UnwrapAligns: weaker than the comment's unconditional bound, because the code applies at most one correction per step. The bound needs every input jump in (-1.5, 1.5]. Values taken modulo 1 meet this.
- Transforms.UnwrapModOne: needs the same jump bound, for the same reason. Without it the claim fails (NormalFormModOneNeedsJumpBound).
- Transforms.NormalFormModOne: needs the same jump bound, for the same reason. Without it the claim fails (NormalFormModOneNeedsJumpBound).
- Transforms.NormalFormJumpBound: needs the same jump bound, for the same reason.
- Transforms.NormalFormInverted: needs a nonzero unwrapped net change and no unwrapped jump of exactly 0.5. Without them the claim fails (NormalFormInvertedZeroNet, NormalFormInvertedHalfJump).
- Transforms.NormalFormIdempotent: needs the jump bound and excludes a flipped sequence with an unwrapped jump of 0.5. Without either, the claim fails (NormalFormNotIdempotentLargeJump, NormalFormNotIdempotentAtHalfJump).
- InvariantMetric.NormalizedModOne: needs equal first values, which the comment at Transforms.py:83 does not require. Without them the claim fails (NormalizedModOneNeedsSameStart).
- InvariantMetric.NormalizedInversion: needs equal first values and the two inversion side conditions.
- Empty input to T_I and T_IM: the source indexes `c[0]` and raises. The model states this as a precondition (`c.Length > 0`) and does not model an error value.
- Floating point: the model uses exact `real` arithmetic. Rounding, NaN and infinities are not modelled. T_M and T_I use only `+`, `-` and comparisons.
- numpy arrays: `.copy()` becomes a fresh Dafny array, and the input array is left untouched. Broadcasting is modelled only as the elementwise suffix shift.
- MixedCoordinates.py is not part of this model. It extracts circular coordinates with PCA, rank statistics, regression, curve fitting and plotting.
