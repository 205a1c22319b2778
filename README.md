# vec2 — a 2-D integer vector, modelled in Dafny

`vec2.h` defines `vec2`, a plain value type holding two `int` coordinates
(both defaulting to zero) with a member `isZero`, free operators `+`, `-`,
`*` (scalar on either side), `/` (by a scalar), `==` and `!=`, and a debug
helper `printVec` that writes `[ x, y ]` to the Arduino `Serial` port.

The model has two modules:

- `CppInt` (`CppInt.dfy`) — the C++ `int` semantics the operators depend on.
  `TruncDiv` is C++ division, which truncates toward zero (Dafny's own `/` is
  Euclidean and rounds `-7 / 2` to `-4`, C++ to `-3`). `Width`, `IntMin`,
  `IntMax` and `Fits` describe a `w`-bit two's-complement `int`; the width is
  a parameter because an Arduino `int` is 16 bits on AVR boards and 32 on
  most others.
- `Vectors` (`Vec2.dfy`) — `datatype Vec2 = Vec2(x: int := 0, y: int := 0)`
  with `IsZero`, and the operators `Add`, `Sub`, `Scale` (`v * s`),
  `ScaleLeft` (`s * v`), `Div`, `Eq`, `Ne` over unbounded integers. The
  `...At` variants (`AddAt`, `SubAt`, `ScaleAt`, `ScaleLeftAt`, `DivAt`) take
  in-range operands at width `w` and return `Value(v)` when the C++ operator
  is defined, `Undefined` when a component leaves the range or the divisor is
  zero (signed overflow and division by zero are undefined behaviour in C++).
  `PrintArgs` is the sequence of arguments `printVec` hands to
  `Serial.print`, and `Render` the text they produce for a given rendering
  of an `int`.

The `vec2` constructor is not `explicit`, so C++ converts any `int` n to
`vec2(n, 0)` wherever a `vec2` is expected: `v + 1` adds (1, 0), and
`v == 0` tests for the zero vector. The model's operators take `Vec2`
operands only; `IntConverts` states what each mixed expression means.

The source does not guard `/` against a zero divisor, so `Div` requires
`s != 0`; the width-aware `DivAt` makes the same case an explicit
`Undefined` rather than a failure the source never raises.

## Model

| member | source | states |
|---|---|---|
| `Vectors.IntConverts` | vec2.h:4-15 | the non-`explicit` constructor turns an `int` n into (n, 0): `v == n` holds exactly when v is (n, 0), `v == 0` and `v != 0` are `isZero` and its negation, and `v + n`, `n + v`, `v - n` change x only |
| `Vectors.Construction` | vec2.h:1-4 | construction stores exactly the given x and y; omitted coordinates are 0, so the default vector is (0, 0), which is zero while (0, 1) is not |
| `Vectors.Vec2.IsZero` | vec2.h:6 | true exactly when both coordinates are 0, i.e. when the vector equals the default-constructed one |
| `Vectors.AddCommutes` | vec2.h:8 | `a + b == b + a` |
| `Vectors.SubUndoesAdd` | vec2.h:8-9 | `(a + b) - b == a` and `(a - b) + b == a` |
| `Vectors.ScaleSides` | vec2.h:10-11 | `v * s == s * v` for every vector and scalar |
| `Vectors.ScaleByOneAndZero` | vec2.h:10-11 | multiplying by 1 (either side) leaves a vector unchanged; multiplying by 0 gives the zero vector |
| `Vectors.Scenarios` | vec2.h:8-11 | (3,4)+(1,-1) is (4,3); (6,9)-(2,3) is (4,6); (2,3)*5 and 5*(2,3) are (10,15) |
| `CppInt.TruncDivSpec` | vec2.h:12 | C++ `a / b`: the remainder `a - (a/b)*b` is smaller than `b` in magnitude and is zero or has the sign of `a` |
| `CppInt.TruncDivShrinks` | vec2.h:12 | the quotient is no larger than `a` in magnitude, strictly smaller when `a != 0` and `b` is not 1 or -1 |
| `CppInt.TruncDivUnique` | vec2.h:12 | any quotient whose remainder is smaller than `b` and has the sign of `a` is the truncating quotient, so the characterisation above pins `/` down |
| `CppInt.MulTruncDivCancel` | vec2.h:12 | `(a * b) / b == a` for `b != 0` |
| `CppInt.TruncDivFits` | vec2.h:12 | for an in-range dividend and non-zero divisor the quotient is in range exactly unless the dividend is the smallest `int` and the divisor is -1 |
| `Vectors.DivRemainders` | vec2.h:12 | each component of `v / s` is its truncating quotient: the remainder left in each coordinate is smaller than `s` and has that coordinate's sign |
| `Vectors.DivUndoesScale` | vec2.h:10-12 | `(v * s) / s == v` and `(s * v) / s == v` for `s != 0` |
| `Vectors.DivTruncates` | vec2.h:12 | (10,20)/5 is (2,4); (-7,7)/2 and (7,-7)/-2 are (-3,3), truncation toward zero |
| `Vectors.Eq` | vec2.h:14 | `==` holds exactly when the two vectors are the same value |
| `Vectors.Ne` | vec2.h:15 | `!=` is the negation of `==`, i.e. holds exactly when the vectors differ |
| `Vectors.EqIsEquivalence` | vec2.h:14-15 | `==` is reflexive, symmetric and transitive; `a != b` is `!(a == b)` |
| `CppInt.FitsIffWrapExact` | vec2.h:2 | an exact `int` result is representable at width `w` exactly when reducing it modulo 2^w into the range (what a wrapping platform stores) leaves it unchanged |
| `Vectors.Checked` | vec2.h:8-12 | the exact result vector of an operator is representable at width `w` (for `/`, with a non-zero divisor) exactly when a platform that wraps on overflow would store the true value in both coordinates, and then it is that vector |
| `Vectors.SubUndoesAddAt` | vec2.h:8-9 | at width `w`, whenever `a + b` is defined, `(a + b) - b` is defined and equals `a` |
| `Vectors.ScaleSidesAt` | vec2.h:10-11 | at width `w`, `v * s` and `s * v` are both undefined or both the same vector |
| `Vectors.DivAtUndefined` | vec2.h:12 | at width `w`, `v / s` is undefined exactly when `s == 0` or `s == -1` and a coordinate is the smallest `int` |
| `Vectors.DivUndoesScaleAt` | vec2.h:10-12 | at width `w`, whenever `v * s` is defined and `s != 0`, `(v * s) / s` is defined and equals `v` |
| `Vectors.Overflow16` | vec2.h:8-12 | with a 16-bit `int`, (32767,0)+(1,0) and (-32768,5)/-1 are undefined, while (-32767,5)/-1 is (32767,-5) |
| `Vectors.PrintArgs` | vec2.h:17-23 | `printVec` makes five `print` calls, the second with x and the fourth with y |
| `Vectors.PrintArgsRender` | vec2.h:17-23 | for any rendering `dec` of an `int`, the five calls write `"[ " + dec(x) + ", " + dec(y) + " ]"` |
| `Vectors.RenderAppend` | vec2.h:17-23 | the text of consecutive `print` calls is the concatenation of their texts, whatever the rendering of an `int` |
| `Vectors.PrintArgsDistinguish` | vec2.h:17-23 | two vectors produce the same `print` calls exactly when they are equal; (2,3) produces `"[ "`, 2, `", "`, 3, `" ]"` |

## Left out

- `printVec` writing to `Serial`: the serial port is an external device and
  its decimal rendering of an `int` is not part of this model; the arguments
  passed to `print`, in order, are modelled, and `Render` joins them for a
  rendering given as a parameter.
- What a platform actually does on division by zero or on signed overflow
  (a trap, wrap-around): both are undefined behaviour in C++, so `Div`
  requires a non-zero divisor and the `...At` operators return `Undefined`
  instead of choosing an outcome.
- Passing operands by `const&` and `inline`: they change neither the values
  computed nor the operands, so the model passes values.
