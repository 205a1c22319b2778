/**
 * The `vec2` value type: two `int` coordinates with component-wise `+` and
 * `-`, multiplication by an `int` on either side, division by an `int`, and
 * structural `==` / `!=`. Every operator builds a fresh value from its
 * operands, so the type is a datatype and the operators are functions.
 *
 * The operators are first stated over unbounded integers; the `...At`
 * variants then say what happens with a `w`-bit `int`, where a component
 * leaving the range (or a division by zero) is undefined behaviour.
 */
module Vectors {
  import opened CppInt

  /** `vec2`; both coordinates default to zero, so `Vec2()` is the origin. */
  datatype Vec2 = Vec2(x: int := 0, y: int := 0) {

    /** `isZero`: the vector is the default-constructed one. */
    function IsZero(): (z: bool)
      ensures z <==> this == Vec2()
      ensures z <==> x == 0 && y == 0
    {
      x == 0 && y == 0
    }
  }

  /** `lhs + rhs` */
  function Add(a: Vec2, b: Vec2): (r: Vec2) {
    Vec2(a.x + b.x, a.y + b.y)
  }

  /** `lhs - rhs` */
  function Sub(a: Vec2, b: Vec2): (r: Vec2) {
    Vec2(a.x - b.x, a.y - b.y)
  }

  /** `lhs * s`, the scalar on the right. */
  function Scale(v: Vec2, s: int): (r: Vec2) {
    Vec2(v.x * s, v.y * s)
  }

  /** `s * rhs`, the scalar on the left; `vec2.h` multiplies each component
      by `s` from the right here too. */
  function ScaleLeft(s: int, v: Vec2): (r: Vec2) {
    Vec2(v.x * s, v.y * s)
  }

  /** `lhs / s`: each component divided with C++ truncating division. `vec2.h`
      does not guard against `s == 0`. */
  function Div(v: Vec2, s: int): (r: Vec2)
    requires s != 0
  {
    Vec2(TruncDiv(v.x, s), TruncDiv(v.y, s))
  }

  /** `lhs == rhs`: the vectors are the same value. */
  function Eq(a: Vec2, b: Vec2): (r: bool)
    ensures r <==> a == b
  {
    a.x == b.x && a.y == b.y
  }

  /** `lhs != rhs`, written in `vec2.h` as `(lhs == rhs) != true`. */
  function Ne(a: Vec2, b: Vec2): (r: bool)
    ensures r <==> !Eq(a, b)
    ensures r <==> a != b
  {
    Eq(a, b) != true
  }

  /** The constructor is not `explicit`, so an `int` `n` converts to
      `Vec2(n)`, i.e. (n, 0). Hence `v == n` compares with (n, 0), `v == 0`
      is `v.IsZero()`, and `v + n` adds n to x only. */
  lemma IntConverts(v: Vec2, n: int)
    ensures Vec2(n) == Vec2(n, 0)
    ensures Eq(v, Vec2(n)) <==> v.x == n && v.y == 0
    ensures Eq(v, Vec2(0)) == v.IsZero() && Ne(v, Vec2(0)) == !v.IsZero()
    ensures Add(v, Vec2(n)) == Add(Vec2(n), v) == Vec2(v.x + n, v.y)
    ensures Sub(v, Vec2(n)) == Vec2(v.x - n, v.y)
  {
  }

  /** Construction stores exactly the given coordinates, and omitted ones
      are zero. */
  lemma Construction(x: int, y: int)
    ensures Vec2(x, y).x == x && Vec2(x, y).y == y
    ensures Vec2(x) == Vec2(x, 0) && Vec2() == Vec2(0, 0)
    ensures Vec2().IsZero() && !Vec2(0, 1).IsZero()
  {
  }

  /** Addition is commutative and subtraction undoes it. */
  lemma AddCommutes(a: Vec2, b: Vec2)
    ensures Add(a, b) == Add(b, a)
  {
  }

  lemma SubUndoesAdd(a: Vec2, b: Vec2)
    ensures Sub(Add(a, b), b) == a
    ensures Add(Sub(a, b), b) == a
  {
  }

  /** The scalar may stand on either side. */
  lemma ScaleSides(v: Vec2, s: int)
    ensures Scale(v, s) == ScaleLeft(s, v)
  {
  }

  /** Multiplying by one changes nothing; by zero gives the zero vector. */
  lemma ScaleByOneAndZero(v: Vec2)
    ensures Scale(v, 1) == v && ScaleLeft(1, v) == v
    ensures Scale(v, 0).IsZero() && ScaleLeft(0, v).IsZero()
  {
  }

  /** Each component of `v / s` is its C++ quotient: the remainder left in
      each coordinate is smaller than `s` and has that coordinate's sign. */
  lemma DivRemainders(v: Vec2, s: int)
    requires s != 0
    ensures var q := Div(v, s);
      && Abs(v.x - q.x * s) < Abs(s) && RemainderSign(v.x - q.x * s, v.x)
      && Abs(v.y - q.y * s) < Abs(s) && RemainderSign(v.y - q.y * s, v.y)
  {
    TruncDivSpec(v.x, s);
    TruncDivSpec(v.y, s);
  }

  /** Division by a non-zero scalar undoes multiplication by it. */
  lemma DivUndoesScale(v: Vec2, s: int)
    requires s != 0
    ensures Div(Scale(v, s), s) == v
    ensures Div(ScaleLeft(s, v), s) == v
  {
    MulTruncDivCancel(v.x, s);
    MulTruncDivCancel(v.y, s);
  }

  /** Division truncates toward zero, where Euclidean division would not:
      (-7, 7) / 2 is (-3, 3). */
  lemma DivTruncates()
    ensures Div(Vec2(10, 20), 5) == Vec2(2, 4)
    ensures Div(Vec2(-7, 7), 2) == Vec2(-3, 3)
    ensures Div(Vec2(7, -7), -2) == Vec2(-3, 3)
  {
    TruncDivUnique(-7, 2, -3);
    TruncDivUnique(7, -2, -3);
    TruncDivUnique(-7, -2, 3);
  }

  /** `==` is an equivalence relation and `!=` its negation. */
  lemma EqIsEquivalence(a: Vec2, b: Vec2, c: Vec2)
    ensures Eq(a, a)
    ensures Eq(a, b) == Eq(b, a)
    ensures Eq(a, b) && Eq(b, c) ==> Eq(a, c)
    ensures Ne(a, b) == !Eq(a, b)
  {
  }

  /** Worked values of the operators. */
  lemma Scenarios()
    ensures Add(Vec2(3, 4), Vec2(1, -1)) == Vec2(4, 3)
    ensures Sub(Vec2(6, 9), Vec2(2, 3)) == Vec2(4, 6)
    ensures Scale(Vec2(2, 3), 5) == Vec2(10, 15) && ScaleLeft(5, Vec2(2, 3)) == Vec2(10, 15)
  {
  }

  // ----- Fixed-width `int` -----

  /** The result of an operator on `w`-bit `int`s: a vector, or undefined
      behaviour (a component out of range, or a division by zero). */
  datatype Outcome = Value(v: Vec2) | Undefined

  /** Both coordinates are `w`-bit `int` values. */
  predicate FitsVec(v: Vec2, w: Width) {
    Fits(v.x, w) && Fits(v.y, w)
  }

  /** The exact result vector `v` of an operator, if it is representable at
      width `w`: exactly when a platform that wraps on overflow would still
      store the true value in both coordinates. */
  function Checked(v: Vec2, w: Width): (r: Outcome)
    ensures r == if Wrap(v.x, w) == v.x && Wrap(v.y, w) == v.y then Value(v) else Undefined
  {
    FitsIffWrapExact(v.x, w);
    FitsIffWrapExact(v.y, w);
    if FitsVec(v, w) then Value(v) else Undefined
  }

  function AddAt(a: Vec2, b: Vec2, w: Width): (o: Outcome)
    requires FitsVec(a, w) && FitsVec(b, w)
  {
    Checked(Add(a, b), w)
  }

  function SubAt(a: Vec2, b: Vec2, w: Width): (o: Outcome)
    requires FitsVec(a, w) && FitsVec(b, w)
  {
    Checked(Sub(a, b), w)
  }

  function ScaleAt(v: Vec2, s: int, w: Width): (o: Outcome)
    requires FitsVec(v, w) && Fits(s, w)
  {
    Checked(Scale(v, s), w)
  }

  function ScaleLeftAt(s: int, v: Vec2, w: Width): (o: Outcome)
    requires FitsVec(v, w) && Fits(s, w)
  {
    Checked(ScaleLeft(s, v), w)
  }

  function DivAt(v: Vec2, s: int, w: Width): (o: Outcome)
    requires FitsVec(v, w) && Fits(s, w)
  {
    if s == 0 then Undefined else Checked(Div(v, s), w)
  }

  /** When `a + b` is defined, `(a + b) - b` is defined and gives back `a`. */
  lemma SubUndoesAddAt(a: Vec2, b: Vec2, w: Width)
    requires FitsVec(a, w) && FitsVec(b, w) && AddAt(a, b, w).Value?
    ensures SubAt(AddAt(a, b, w).v, b, w) == Value(a)
  {
    SubUndoesAdd(a, b);
  }

  /** The scalar may stand on either side at any width. */
  lemma ScaleSidesAt(v: Vec2, s: int, w: Width)
    requires FitsVec(v, w) && Fits(s, w)
    ensures ScaleAt(v, s, w) == ScaleLeftAt(s, v, w)
  {
  }

  /** Division of in-range operands is undefined exactly when the divisor
      is zero or a component `IntMin(w)` is divided by -1. */
  lemma DivAtUndefined(v: Vec2, s: int, w: Width)
    requires FitsVec(v, w) && Fits(s, w)
    ensures DivAt(v, s, w) == Undefined
        <==> s == 0 || (s == -1 && (v.x == IntMin(w) || v.y == IntMin(w)))
  {
    if s != 0 {
      TruncDivFits(v.x, s, w);
      TruncDivFits(v.y, s, w);
    }
  }

  /** When `v * s` is defined and `s != 0`, `(v * s) / s` is defined and
      gives back `v`. */
  lemma DivUndoesScaleAt(v: Vec2, s: int, w: Width)
    requires FitsVec(v, w) && Fits(s, w) && s != 0 && ScaleAt(v, s, w).Value?
    ensures DivAt(ScaleAt(v, s, w).v, s, w) == Value(v)
  {
    DivUndoesScale(v, s);
  }

  /** On a 16-bit `int`, 32767 + 1 and -32768 / -1 are undefined. */
  lemma Overflow16()
    ensures IntMin(16) == -32768 && IntMax(16) == 32767
    ensures AddAt(Vec2(32767, 0), Vec2(1, 0), 16) == Undefined
    ensures DivAt(Vec2(-32768, 5), -1, 16) == Undefined
    ensures DivAt(Vec2(-32767, 5), -1, 16) == Value(Vec2(32767, -5))
  {
    Range16();
    DivAtUndefined(Vec2(-32768, 5), -1, 16);
    TruncDivMinusOne(-32767);
    TruncDivMinusOne(5);
  }

  // ----- printVec -----

  /** One argument handed to the serial port's `print`. */
  datatype PrintArg = Text(s: string) | Number(n: int)

  /** The arguments `printVec` passes to `print`, in order; how the serial
      port renders a number is not part of this model. */
  function PrintArgs(v: Vec2): (args: seq<PrintArg>)
    ensures |args| == 5
    ensures args[1] == Number(v.x) && args[3] == Number(v.y)
  {
    [Text("[ "), Number(v.x), Text(", "), Number(v.y), Text(" ]")]
  }

  /** The text one `print` argument produces. */
  function Piece(arg: PrintArg, dec: int -> string): string {
    match arg
    case Text(t) => t
    case Number(n) => dec(n)
  }

  /** The text a list of `print` arguments produces, given how the port
      renders an `int` (`dec`): the pieces of the arguments, in order. */
  function Render(args: seq<PrintArg>, dec: int -> string): string {
    if args == [] then [] else Piece(args[0], dec) + Render(args[1..], dec)
  }

  /** Printing two lists of arguments one after the other writes the text of
      the first followed by the text of the second. */
  lemma {:induction false} RenderAppend(a: seq<PrintArg>, b: seq<PrintArg>, dec: int -> string)
    ensures Render(a + b, dec) == Render(a, dec) + Render(b, dec)
  {
    if a != [] {
      assert (a + b)[1..] == a[1..] + b;
      RenderAppend(a[1..], b, dec);
    } else {
      assert a + b == b;
    }
  }

  /** Whatever the rendering of an `int`, `printVec` writes `[ x, y ]`:
      an opening bracket and space, x, a comma and space, y, a space and a
      closing bracket. */
  lemma PrintArgsRender(v: Vec2, dec: int -> string)
    ensures Render(PrintArgs(v), dec) == "[ " + dec(v.x) + ", " + dec(v.y) + " ]"
  {
    var args := PrintArgs(v);
    assert Render(args[4..], dec) == " ]" + Render([], dec);
    assert Render(args[3..], dec) == dec(v.y) + Render(args[4..], dec);
    assert Render(args[2..], dec) == ", " + Render(args[3..], dec);
    assert Render(args[1..], dec) == dec(v.x) + Render(args[2..], dec);
    assert Render(args, dec) == "[ " + Render(args[1..], dec);
  }

  /** Distinct vectors are printed differently, and (2, 3) is printed as
      "[ ", 2, ", ", 3, " ]". */
  lemma PrintArgsDistinguish(a: Vec2, b: Vec2)
    ensures PrintArgs(a) == PrintArgs(b) <==> a == b
    ensures PrintArgs(Vec2(2, 3)) == [Text("[ "), Number(2), Text(", "), Number(3), Text(" ]")]
  {
  }
}
